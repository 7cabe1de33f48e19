# A model of the dht peer and its benchmark client

This project is a Dafny model of the key-value core of the `dht` project.
`client.js` is one peer of a small distributed hash table. It reads a config file with one peer per line,
each line "IPv4 port". It checks every line with `validateAddress`. It serves
'operation' requests (PUT, GET, DELETE) on a local hash table and replies
with an 'op_status' message. Its interactive side prompts for a key and a
value. It rejects blank answers and forms the socket address of the peer a key is
routed to. `eval/test_client.js` is a benchmark client. It sends
`maxIteration` PUTs, then as many GETs, then as many DELETEs. Each request goes to
the peer its key is routed to, over one cached socket per peer. The client sends the next request when
the previous reply arrives, sums the latencies and exits after the last DELETE.

Modules, one per concept:

- `JsBuiltins` (js_builtins.dfy) covers the ECMAScript built-ins the code depends on:
  `split` with a one-character separator, keeping empty fields; `join`;
  `trim`; `filter`; and `parseInt(s, 10)`. For `parseInt`, leading white space is skipped, a sign is optional,
  the longest digit prefix is read, and NaN is `None`.
- `PeerAddress` (peer_address.dfy) models `validateAddress` and
  `validateConfig` of both files. It also models the socket address
  "http://" + id with its spaces made colons.
- `Prompt` (prompt.dfy) models the `validate` callback of the key and value prompts.
- `Protocol` (protocol.dfy) models the operation kinds and the request and reply payloads.
- `LocalStore` (local_store.dfy) models the peer server. `Perform` specifies
  `performOperation` on the hash table as a function of the table before the call.
  The class `Peer` holds the table as a field that its methods update.
- `Benchmark` (benchmark.dfy) models the benchmark as a state machine over a
  `Bench` value: the counters, the socket cache, the sent requests and the exit flag.
  Each event handler is one step function. `Run` folds a server's replies
  over the steps. `ClosedLoop` proves that a server echoing each request's
  operation brings the run to its exit. By then every request has been sent, phase by phase and in key order.
- `TestClientState` (test_client.dfy) has the class `TestClient`. Its fields are
  the module-level variables of the benchmark and its methods are the benchmark's functions.
  Each method ensures that the new state is the `Benchmark` step of
  the old one.

`client.js:173` replies with `{ status }` alone, while
`eval/test_client.js:132-138` reads `operation` and `timestamp` from the reply.
The model follows the code: `Protocol.Reply` holds only the status, and the
consequence is the second finding below.

## Model

| member | source | states |
|---|---|---|
| JsBuiltins.Split | client.js:190-191 | `split` gives one more field than there are separators; no field contains the separator |
| JsBuiltins.JoinSplit | client.js:147 | joining the fields of a split with the same separator restores the text |
| JsBuiltins.SplitJoin | client.js:190-191 | splitting a join of separator-free fields (at least one) gives the fields back |
| JsBuiltins.JoinOfSplit | client.js:147 | `split(" ").join(":")` replaces every space by a colon |
| JsBuiltins.SplitTrailing | client.js:179 | a trailing newline adds one empty field at the end of the split |
| JsBuiltins.SplitHead | client.js:191 | the first field of a split is the text before the first separator |
| JsBuiltins.Replace | client.js:147 | replacing a character by a one-character string keeps the length and changes exactly the matching positions |
| JsBuiltins.Trim | client.js:58 | neither end of the trimmed text is white space; TrimEmpty, TrimStartRemovesWhiteSpace and TrimEndRemovesWhiteSpace say that only white space is removed |
| JsBuiltins.Join | client.js:147 | no contract of its own; JoinSplit, SplitJoin and JoinOfSplit state what it computes |
| JsBuiltins.TrimEmpty | client.js:58 | a string trims to "" exactly when every character is white space |
| JsBuiltins.TrimStart | client.js:198 | the result is a suffix of the input and starts with a character that is not white space |
| JsBuiltins.TrimStartRemovesWhiteSpace | client.js:198 | everything that `TrimStart` removes is white space |
| JsBuiltins.TrimEndRemovesWhiteSpace | client.js:58 | everything that trimming the end removes is white space |
| JsBuiltins.ParseInt | client.js:198 | `parseInt` yields a number only when the text holds a digit |
| JsBuiltins.ParseSigned | client.js:198 | after the white space, a number comes out only when a digit is present; ParseUnsigned, SignedMinus, SignedPlus and SignedNoDigits give its value for each sign |
| JsBuiltins.ParseDigits | client.js:198 | any run of digits, leading zeros included, followed by a non-digit or nothing, reads as the number the digits write |
| JsBuiltins.ParseMinusDigits | client.js:198 | a minus sign before a run of digits negates the number the digits write |
| JsBuiltins.ParsePlusDigits | client.js:198 | a plus sign before a run of digits leaves the number unchanged ("+7" is 7) |
| JsBuiltins.LeadingZero | client.js:198 | a leading zero does not change the number a run of digits writes, so "01" reads as 1 |
| JsBuiltins.ParseNoDigits | client.js:198 | NaN: when no digit follows the white space and the optional sign, the result is `None`, even if a digit comes later ("a1", "-x1", "+") |
| JsBuiltins.SignedNoDigits | client.js:198 | without a digit right after the optional sign there is no number |
| JsBuiltins.ParseUnsigned | client.js:198 | text starting with a digit has no sign and reads as the value of its digit prefix |
| JsBuiltins.SignedMinus | client.js:198 | after a minus sign, the value is the negated value of the digit prefix |
| JsBuiltins.SignedPlus | client.js:198 | after a plus sign, the value is the value of the digit prefix |
| JsBuiltins.ParseDecimal | client.js:198 | `parseInt` reads back any decimal numeral, whatever non-digit text follows it |
| JsBuiltins.ParseNegative | client.js:198 | a minus sign before a numeral negates the value `parseInt` reads |
| JsBuiltins.ParseSkipsWhiteSpace | client.js:198 | leading white space does not change what `parseInt` reads |
| JsBuiltins.Filter | client.js:181-183 | `filter` keeps only elements satisfying the predicate, and every element that satisfies it |
| JsBuiltins.FilterEmpty | client.js:185 | the filtered array is empty exactly when no element satisfies the predicate |
| JsBuiltins.FilterAll | eval/test_client.js:154-156 | when every element satisfies the predicate the filter returns the array unchanged |
| JsBuiltins.FilterAppend | eval/test_client.js:154-156 | filtering distributes over concatenation, so the order of entries is kept |
| PeerAddress.ValidateAddress | client.js:189-202 | an accepted entry contains a space: fewer than two fields is a rejection |
| PeerAddress.ValidateByParts | client.js:190-199 | with at least two fields, the verdict is: the host has exactly four blocks, each with `parseInt` in [0, 255] |
| PeerAddress.ValidateAddressIff | client.js:189-202 | accepted exactly when the entry is a host of four dot-free, space-free octet blocks, then a space, then anything |
| PeerAddress.OctetBlock | client.js:197-199 | a block passes only if it holds a digit (NaN fails); OctetNumeral, OctetNumeralWithJunk and NegativeBlock give the verdict for numerals |
| PeerAddress.OctetNumeral | client.js:198 | a decimal numeral passes as a block exactly when it is at most 255 |
| PeerAddress.AcceptsOctets | client.js:189-202 | four numbers up to 255 joined by dots, a space and any port text are accepted |
| PeerAddress.RejectsLargeBlock | client.js:196-199 | an entry with any block above 255 is rejected, whatever the port |
| PeerAddress.RejectsLeadingSpace | client.js:190-194 | an entry that starts with a space has an empty host and is rejected |
| PeerAddress.AcceptsExample | client.js:189-202 | "192.168.1.1 4000" is accepted |
| PeerAddress.RejectsExample | client.js:189-202 | "192.168.1.999 4000" is rejected |
| PeerAddress.OctetNumeralWithJunk | client.js:198 | text after a block's digits is ignored: a numeral followed by junk passes exactly when the numeral is at most 255 |
| PeerAddress.NegativeBlock | client.js:198 | a block with a minus sign fails unless its number is zero ("-0" passes) |
| PeerAddress.OctetBlockSkipsWhiteSpace | client.js:198 | white space before a block does not change its verdict |
| PeerAddress.CheckPeers | client.js:181-185 | the peer list is returned exactly when every entry is valid, and it is returned unchanged |
| PeerAddress.ValidateConfig | client.js:178-186 | accepted exactly when every line is a valid address; the accepted list joins back to the file contents; every line in it is newline-free and valid |
| PeerAddress.TrailingNewlineRejected | client.js:179-185 | a config that ends with a newline is always rejected |
| PeerAddress.EmptyConfigRejected | client.js:179-185 | an empty config is rejected |
| PeerAddress.ValidateConfigSkippingEmpty | eval/test_client.js:151-163 | accepted exactly when every non-empty line is valid; the result is the non-empty lines in order |
| PeerAddress.SkippingIgnoresTrailingNewline | eval/test_client.js:152-156 | a trailing newline does not change the verdict or the peer list |
| PeerAddress.StrictAcceptedIsSkippingAccepted | eval/test_client.js:151-163 | every config the strict check accepts is accepted by the skipping check with the same peer list |
| PeerAddress.SocketAddress | client.js:142-151 | an address exists exactly when the id is valid, and it is "http://" followed by the id with spaces made colons |
| PeerAddress.SocketAddressOfEntry | client.js:147 | a valid entry "host port" connects to "http://host:port" |
| PeerAddress.ColonForSpace | client.js:147 | in "host port", replacing the one space by a colon gives "host:port" |
| Prompt.ValidateInput | client.js:57-64 | an answer is accepted exactly when it is defined and holds a character that is not white space |
| Prompt.RejectsBlank | client.js:84-91 | blanks followed by a tab are rejected |
| Prompt.AcceptsPadded | client.js:57-64 | an answer with a non-white-space character after any padding is accepted |
| LocalStore.Lookup | client.js:128-131 | `getValue` finds the stored value when the key holds a non-empty one, and `null` otherwise |
| LocalStore.Perform | client.js:101-135 | PUT stores the value and reports the table's put result; GET reports the lookup and leaves the table alone; DELETE removes the key and reports the remove result; any other operation reports NOOP and changes nothing; other keys are untouched |
| LocalStore.PutThenGet | client.js:123-131 | a GET right after a PUT finds the value put, or `null` when that value is the empty string |
| LocalStore.DeleteThenGet | client.js:128-135 | a GET after a DELETE of the same key reports `null` |
| LocalStore.OtherKeysUnaffected | client.js:101-135 | an operation on one key does not change what a GET of another key reports |
| LocalStore.Peer.constructor | client.js:11-12 | the peer starts with an empty hash table |
| LocalStore.Peer.PutValue | client.js:123-126 | the table maps the key to the value and the result is the table's put result |
| LocalStore.Peer.GetValue | client.js:128-131 | the result is the lookup of the key; the table is unchanged |
| LocalStore.Peer.DeleteKey | client.js:133-135 | the key is gone from the table and the result is the table's remove result |
| LocalStore.Peer.PerformOperation | client.js:101-121 | the new table and the status are what `Perform` gives for the old table |
| LocalStore.Peer.OnOperation | client.js:171-174 | the reply carries the status of performing the request's operation, key and value |
| Benchmark.Delegate | eval/test_client.js:110-148 | exits exactly when the routed peer's id is invalid; otherwise the request is sent on that peer's socket and stamped now if the socket was cached, or at connect time on a new socket opened to the peer's address and cached; nothing else changes |
| Benchmark.DelegateKeepsSockets | eval/test_client.js:123-147 | existing cache entries are kept, and a valid cache stays valid |
| Benchmark.DelegateReuses | eval/test_client.js:123-125 | a second request to the same peer goes out on the same socket and opens none |
| Benchmark.DelegateConnects | eval/test_client.js:112-119 | with the real address formation the step exits exactly for an id that fails `validateAddress`, and a new socket is opened to "http://" + id with spaces made colons |
| Benchmark.CachedSocketsConnect | eval/test_client.js:114-146 | every cached socket belongs to a valid id and was opened to that id's socket address |
| Benchmark.Next | eval/test_client.js:73-87 | after PUT comes GET and after GET comes DELETE: the phase rank drops by one |
| Benchmark.DoTest | eval/test_client.js:48-62 | an unrecognised operation changes nothing |
| Benchmark.TestStep | eval/test_client.js:64-103 | no contract of its own; StepIssues, StepAdvances and StepExits state what each branch does |
| Benchmark.StepIssues | eval/test_client.js:64-68 | below `maxIteration` a step sends exactly the request for key index `iteration` and counts it, or exits when that key's peer is invalid |
| Benchmark.StepAdvances | eval/test_client.js:69-74 | when PUT or GET has sent `maxIteration` requests, both counters reset and the next phase's request for index 0 goes out |
| Benchmark.StepExits | eval/test_client.js:96-102 | after DELETE (or with nothing to send) both counters reset and the process exits |
| Benchmark.StepKeepsSockets | eval/test_client.js:64-103 | no step removes or changes a cache entry, and a valid cache stays valid |
| Benchmark.OnOpStatus | eval/test_client.js:131-139 | a reply naming no known operation only adds its latency |
| Benchmark.ReplyAccumulates | eval/test_client.js:131-139 | a reply mid-phase adds `now` minus its timestamp to the total and sends the next request |
| Benchmark.SentInOrder | eval/test_client.js:64-68 | they are the requests for key indices 0 to `n` - 1, in order |
| Benchmark.RequestsInOrder | eval/test_client.js:125 | the i-th request is the one the i-th message carries |
| Benchmark.RoutesValidIff | eval/test_client.js:112-119 | every key of the run can be sent exactly when every routed id passes `validateAddress` |
| Benchmark.RoutesValidFromConfig | eval/test_client.js:29-41 | a config the benchmark accepts, with every key routed to one of its peers, routes every key validly |
| Benchmark.RequestsIssued | eval/test_client.js:125 | one more message sent adds its request to the list of requests |
| Benchmark.LatestIsPhase | eval/test_client.js:64-68 | mid-phase, the latest request sent is the phase's request for index `iteration` - 1 |
| Benchmark.ReplyWithin | eval/test_client.js:131-139 | an echoed reply mid-phase moves the run to the next index of the same phase |
| Benchmark.ReplyAdvances | eval/test_client.js:69-74 | an echoed reply at the end of PUT or GET moves the run to index 1 of the next phase |
| Benchmark.ReplyFinishes | eval/test_client.js:96-102 | an echoed reply at the end of DELETE finishes the run |
| Benchmark.EchoDrives | eval/test_client.js:46-148 | with every key routed validly, the echoing server moves the run through its phases |
| Benchmark.RunFrom | eval/test_client.js:46-103 | from mid-phase, enough replies finish the run |
| Benchmark.ClosedLoop | eval/test_client.js:46-103 | with every key routed validly, `3 * maxIteration` replies bring the process to its exit with both counters reset, after it sent every PUT, then every GET, then every DELETE, each phase in key order |
| Benchmark.StatusOnlyKeeps | eval/test_client.js:131-139 | replies from client.js, which name no operation, only add latency: nothing is sent and nothing exits |
| Benchmark.StatusOnlyStalls | eval/test_client.js:131-139 | against client.js's replies the run never gets past its first PUT, however many replies arrive |
| TestClientState.TestClient.constructor | eval/test_client.js:32-35 | the counters start at 0 with no cached sockets; the inputs are the given ones with the real address formation |
| TestClientState.TestClient.Inputs | eval/test_client.js:112-119 | socket addresses are formed as `delegateOperationToPeer` forms them |
| TestClientState.TestClient.DelegateOperationToPeer | eval/test_client.js:110-148 | the new state is `Benchmark.Delegate` of the old one |
| TestClientState.TestClient.TestPhase | eval/test_client.js:64-103 | the new state is `Benchmark.TestStep` of the old one |
| TestClientState.TestClient.SendNext | eval/test_client.js:65-68 | below `maxIteration`, the new state is `Benchmark.TestStep` of the old one |
| TestClientState.TestClient.EndPhase | eval/test_client.js:69-74 | at `maxIteration`, the new state is `Benchmark.TestStep` of the old one |
| TestClientState.TestClient.TestPut | eval/test_client.js:64-75 | the new state is the PUT step of the old one |
| TestClientState.TestClient.TestGet | eval/test_client.js:77-89 | the new state is the GET step of the old one |
| TestClientState.TestClient.TestDelete | eval/test_client.js:91-103 | the new state is the DELETE step of the old one |
| TestClientState.TestClient.DoTest | eval/test_client.js:48-62 | the new state is `Benchmark.DoTest` of the old one |
| TestClientState.TestClient.AddLatency | eval/test_client.js:134-136 | the latency total grows by the given latency and nothing else changes |
| TestClientState.TestClient.OnOpStatus | eval/test_client.js:131-139 | the new state is `Benchmark.OnOpStatus` of the old one |

## Left out

- socket.io, inquirer, fs, optimist, ip and the console are not modelled. Events are delivered as calls, file contents as a string, and log lines are dropped.
- `process.exit()` is modelled as the `exited` flag. No step runs once it is set.
- The consistent-hashing route (`peersList.getNode`) and the key and value provider of the benchmark are abstract functions of the setup.
- `Date.now()` is a parameter of each step. A request on a newly opened socket is stamped `OnConnect`, because its timestamp is read when the later 'connect' event fires.
- Asynchronous interleaving, reconnection and a 'connect' event firing more than once are not modelled. The closed loop delivers one reply per request in flight.
- The interactive flow of client.js is not modelled beyond its prompt validation and its address formation. That flow is `listOperations`, `requestKey`, `requestValue`, the `forceNew` socket of its `delegateOperationToPeer` and its 'op_status' logging.
- The internals of the `hashtable` module are abstract: the boolean results of `put` and `remove` are functions of the table (`LocalStore.Native`).
- An `undefined` value in a PUT is not modelled: values are strings. The empty string stands for the falsy value that `getValue` reports as `null`.
- Benchmark.OnOpStatus: latencies are unbounded integers, not doubles, so the NaN a missing timestamp produces is not modelled.
- JsBuiltins.ParseInt: reads unbounded integers, so rounding beyond 2^53 is not modelled. `maxIteration` is an integer, while `-i` could be any number.
- Benchmark.Setup: socket addresses come from a setup function. `Benchmark.Faithful` ties it to `PeerAddress.SocketAddress`, and `TestClient.Inputs` always gives a faithful setup.
- The average latency printed at the end of each phase is console output and is not modelled. The model only resets the total.

## Findings

| source | as written | input that shows it | evidently intended | confidence | as-written member | corrected member |
|---|---|---|---|---|---|---|
| client.js:179-185 | the config is split on every newline and every field must be a valid address, so the empty field after a final newline fails it | a config file "192.168.1.1 4000\n" | lines that are empty are skipped, as eval/test_client.js:154-156 does | not executed; medium | PeerAddress.TrailingNewlineRejected | PeerAddress.SkippingIgnoresTrailingNewline |
| eval/test_client.js:131-139 | the benchmark reads `operation` and `timestamp` from the reply, but client.js:173 replies with `{ status }` alone, so `doTest(undefined)` sends nothing more | any run with `maxIteration` at least 1 against client.js peers | the reply names the request's operation and echoes its timestamp | not executed; high | Benchmark.StatusOnlyStalls | Benchmark.ClosedLoop |
