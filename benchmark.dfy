/** The benchmark client of eval/test_client.js as a state machine: which
    request each step sends, to which cached socket, and how the iteration
    counter, the latency total and the phase PUT, GET, DELETE evolve until
    the process exits. Each event handler is one step on a `Bench` value. */
module Benchmark {
  import opened Wrappers
  import opened JsBuiltins
  import opened PeerAddress
  import opened Protocol

  /** The fixed inputs of a benchmark run: `maxIteration` (the -i argument),
      the consistent-hashing route from a key to a peer id, the key
      provider's key and value for each index, and the socket address a peer
      id is connected to (`None` for an id that fails `validateAddress`). */
  datatype Setup = Setup(maxIteration: int, getNode: string -> string, getKey: int -> string, getValue: int -> string,
                         address: string -> Option<string>)

  /** The setup forms socket addresses as `delegateOperationToPeer` does. */
  ghost predicate Faithful(s: Setup)
  {
    forall p :: s.address(p) == SocketAddress(p)
  }

  /** When a request's timestamp is read: during the step itself, or later,
      when the 'connect' event of a new socket fires. */
  datatype Stamp = At(time: int) | OnConnect

  /** One 'operation' event, sent on the socket numbered `socket`. */
  datatype Emit = Emit(socket: nat, request: Request, stamp: Stamp)

  /** The fields of an 'op_status' reply that the benchmark reads. */
  datatype OpStatus = OpStatus(operation: Op, timestamp: int)

  /** The module-level state: the two counters; the `sockets` table from
      peer id to socket; the address each socket was opened to (socket `n`
      is `addresses[n]`); every request sent so far; whether the process has
      exited. */
  datatype Bench = Bench(iteration: int, totalLatency: int, sockets: map<string, nat>,
                         addresses: seq<string>, outbox: seq<Emit>, exited: bool)

  /** The state before `doTest(PUT)` starts the run. */
  const Initial: Bench := Bench(0, 0, map[], [], [], false)

  /** Every cached socket was opened to the socket address of its own peer,
      and no two peers share a socket. */
  predicate SocketsValid(s: Setup, b: Bench)
  {
    (forall p :: p in b.sockets ==> b.sockets[p] < |b.addresses| && s.address(p) == Some(b.addresses[b.sockets[p]]))
    && (forall p, q :: p in b.sockets && q in b.sockets && p != q ==> b.sockets[p] != b.sockets[q])
  }

  /** Entries already in the sockets table are still there, unchanged. */
  predicate CacheKept(b: Bench, r: Bench)
  {
    forall p :: p in b.sockets ==> p in r.sockets && r.sockets[p] == b.sockets[p]
  }

  /** `delegateOperationToPeer(key, operation, params)`: route the key to a
      peer; exit if its id is not a valid address; otherwise send the request
      on the cached socket, or open, cache and use a new one. */
  function Delegate(s: Setup, b: Bench, key: string, op: Op, params: Params, now: int): (r: Bench)
    requires !b.exited
    ensures r.exited <==> s.address(s.getNode(key)).None?
    ensures r.exited ==> r == b.(exited := true)
    ensures !r.exited ==> s.getNode(key) in r.sockets
    ensures !r.exited ==> r.outbox == b.outbox + [Emit(r.sockets[s.getNode(key)], Request(op, params),
                                                       if s.getNode(key) in b.sockets then At(now) else OnConnect)]
    ensures forall p :: p in r.sockets && p != s.getNode(key) ==> p in b.sockets
    ensures s.getNode(key) in b.sockets ==> r.addresses == b.addresses
    ensures !r.exited && s.getNode(key) !in b.sockets ==>
              r.sockets[s.getNode(key)] == |b.addresses| && r.addresses == b.addresses + [s.address(s.getNode(key)).value]
    ensures r.iteration == b.iteration && r.totalLatency == b.totalLatency
  {
    var peerID := s.getNode(key);
    var address := s.address(peerID);
    if address.None? then b.(exited := true)
    else if peerID in b.sockets then
      b.(outbox := b.outbox + [Emit(b.sockets[peerID], Request(op, params), At(now))])
    else
      var socket := |b.addresses|;
      b.(sockets := b.sockets[peerID := socket], addresses := b.addresses + [address.value],
         outbox := b.outbox + [Emit(socket, Request(op, params), OnConnect)])
  }

  /** Delegating only adds to the socket cache and keeps it valid. */
  lemma DelegateKeepsSockets(s: Setup, b: Bench, key: string, op: Op, params: Params, now: int)
    requires !b.exited
    ensures CacheKept(b, Delegate(s, b, key, op, params, now))
    ensures SocketsValid(s, b) ==> SocketsValid(s, Delegate(s, b, key, op, params, now))
  {
  }

  /** A second request routed to the same peer goes out on the same socket
      and opens nothing new. */
  lemma DelegateReuses(s: Setup, b: Bench, k1: string, op1: Op, p1: Params, t1: int,
                       k2: string, op2: Op, p2: Params, t2: int)
    requires !b.exited && s.address(s.getNode(k1)).Some? && s.getNode(k2) == s.getNode(k1)
    ensures var first := Delegate(s, b, k1, op1, p1, t1);
            var second := Delegate(s, first, k2, op2, p2, t2);
            second.addresses == first.addresses && second.sockets == first.sockets
            && second.outbox[|second.outbox| - 1].socket == first.outbox[|first.outbox| - 1].socket
  {
  }

  /** The order of the phases. */
  function Rank(op: Op): nat
  {
    match op
    case Put => 3
    case Get => 2
    case Delete => 1
    case Unknown(_) => 0
  }

  /** The phase `doTest` moves to when a phase other than DELETE is done. */
  function Next(op: Op): (r: Op)
    requires op.Put? || op.Get?
    ensures Rank(r) == Rank(op) - 1 && r != Put
  {
    if op.Put? then Get else Delete
  }

  /** The request a phase sends for key index `i`. */
  function Operation(s: Setup, op: Op, i: int): Request
  {
    Request(op, Params(s.getKey(i), s.getValue(i)))
  }

  /** `r` is `b` with one more request, `req`, sent and the process still running. */
  predicate Issued(b: Bench, r: Bench, req: Request)
  {
    !r.exited && |r.outbox| == |b.outbox| + 1 && r.outbox[..|b.outbox|] == b.outbox
    && r.outbox[|b.outbox|].request == req
  }

  /** `testPut`, `testGet` and `testDelete`, which differ only in their
      operation: below `maxIteration`, send the request for index `iteration`
      and count it; otherwise reset both counters and go on to the next phase,
      or exit after DELETE. */
  function TestStep(s: Setup, b: Bench, op: Op, now: int): Bench
    requires !b.exited && !op.Unknown?
    decreases Rank(op), 0
  {
    if b.iteration < s.maxIteration then
      var key := s.getKey(b.iteration);
      var d := Delegate(s, b, key, op, Params(key, s.getValue(b.iteration)), now);
      if d.exited then d else d.(iteration := d.iteration + 1)
    else
      var reset := b.(iteration := 0, totalLatency := 0);
      if op.Delete? then reset.(exited := true)
      else DoTest(s, reset, Next(op), now)
  }

  /** `doTest(operation)`: run the step of a known operation; an unknown one
      is only logged and changes nothing. */
  function DoTest(s: Setup, b: Bench, op: Op, now: int): (r: Bench)
    requires !b.exited
    decreases Rank(op), 1
    ensures op.Unknown? ==> r == b
  {
    if op.Unknown? then b else TestStep(s, b, op, now)
  }

  /** Below `maxIteration` a step sends exactly one request, for key index
      `iteration`, and counts it; a key routed to an invalid address exits
      instead, before anything is counted. */
  lemma StepIssues(s: Setup, b: Bench, op: Op, now: int)
    requires !b.exited && !op.Unknown? && b.iteration < s.maxIteration
    ensures var r := DoTest(s, b, op, now);
            if s.address(s.getNode(s.getKey(b.iteration))).Some?
            then Issued(b, r, Operation(s, op, b.iteration))
                 && r.iteration == b.iteration + 1 && r.totalLatency == b.totalLatency
            else r == b.(exited := true)
  {
    var key := s.getKey(b.iteration);
    var d := Delegate(s, b, key, op, Params(key, s.getValue(b.iteration)), now);
    assert TestStep(s, b, op, now) == if d.exited then d else d.(iteration := d.iteration + 1);
  }

  /** Once PUT or GET has sent `maxIteration` requests, the next step resets
      the counters and sends the next phase's request for index 0. */
  lemma StepAdvances(s: Setup, b: Bench, op: Op, now: int)
    requires !b.exited && (op.Put? || op.Get?) && 0 < s.maxIteration <= b.iteration
    ensures var r := DoTest(s, b, op, now);
            if s.address(s.getNode(s.getKey(0))).Some?
            then Issued(b, r, Operation(s, Next(op), 0)) && r.iteration == 1 && r.totalLatency == 0
            else r == b.(iteration := 0, totalLatency := 0, exited := true)
  {
    var reset := b.(iteration := 0, totalLatency := 0);
    assert DoTest(s, b, op, now) == DoTest(s, reset, Next(op), now);
    StepIssues(s, reset, Next(op), now);
  }

  /** When DELETE is done, or when `maxIteration` leaves no request to send,
      the step resets the counters and exits. */
  lemma {:induction false} StepExits(s: Setup, b: Bench, op: Op, now: int)
    requires !b.exited && !op.Unknown? && s.maxIteration <= b.iteration
    requires op.Delete? || s.maxIteration <= 0
    ensures DoTest(s, b, op, now) == b.(iteration := 0, totalLatency := 0, exited := true)
    decreases Rank(op)
  {
    if !op.Delete? {
      var reset := b.(iteration := 0, totalLatency := 0);
      assert DoTest(s, b, op, now) == DoTest(s, reset, Next(op), now);
      StepExits(s, reset, Next(op), now);
    }
  }

  /** The 'op_status' handler: add the reply's latency to the total, then
      continue with the operation the reply names. */
  function OnOpStatus(s: Setup, b: Bench, reply: OpStatus, now: int): (r: Bench)
    requires !b.exited
    ensures reply.operation.Unknown? ==> r == b.(totalLatency := b.totalLatency + (now - reply.timestamp))
  {
    var latency := now - reply.timestamp;
    DoTest(s, b.(totalLatency := b.totalLatency + latency), reply.operation, now)
  }

  /** Whatever a step does, the socket cache only grows and stays valid. */
  lemma {:induction false} StepKeepsSockets(s: Setup, b: Bench, op: Op, now: int)
    requires !b.exited
    ensures CacheKept(b, DoTest(s, b, op, now))
    ensures SocketsValid(s, b) ==> SocketsValid(s, DoTest(s, b, op, now))
    decreases Rank(op)
  {
    if !op.Unknown? {
      if b.iteration < s.maxIteration {
        var key := s.getKey(b.iteration);
        var d := Delegate(s, b, key, op, Params(key, s.getValue(b.iteration)), now);
        DelegateKeepsSockets(s, b, key, op, Params(key, s.getValue(b.iteration)), now);
        assert d.sockets == d.(iteration := d.iteration + 1).sockets;
      } else if !op.Delete? {
        var reset := b.(iteration := 0, totalLatency := 0);
        StepKeepsSockets(s, reset, Next(op), now);
      }
    }
  }

  /** A reply in the middle of a phase adds its latency, `now` minus the
      timestamp it carries, and the next request goes out. */
  lemma ReplyAccumulates(s: Setup, b: Bench, reply: OpStatus, now: int)
    requires !b.exited && !reply.operation.Unknown? && b.iteration < s.maxIteration
    requires s.address(s.getNode(s.getKey(b.iteration))).Some?
    ensures var r := OnOpStatus(s, b, reply, now);
            Issued(b, r, Operation(s, reply.operation, b.iteration)) && r.iteration == b.iteration + 1
            && r.totalLatency == b.totalLatency + (now - reply.timestamp)
  {
    var counted := b.(totalLatency := b.totalLatency + (now - reply.timestamp));
    StepIssues(s, counted, reply.operation, now);
  }

  /** The number of requests of each phase. */
  function Rounds(s: Setup): nat
  {
    if s.maxIteration > 0 then s.maxIteration else 0
  }

  /** The first `n` requests of a phase. */
  function Sent(s: Setup, op: Op, n: nat): (r: seq<Request>)
    ensures |r| == n
  {
    if n == 0 then [] else Sent(s, op, n - 1) + [Operation(s, op, n - 1)]
  }

  /** They are the requests for key indices 0 to `n` - 1, in order. */
  lemma {:induction false} SentInOrder(s: Setup, op: Op, n: nat)
    ensures forall j :: 0 <= j < n ==> Sent(s, op, n)[j] == Operation(s, op, j)
  {
    if n > 0 {
      SentInOrder(s, op, n - 1);
    }
  }

  /** The requests of one whole phase. */
  function Phase(s: Setup, op: Op): (r: seq<Request>)
  {
    Sent(s, op, Rounds(s))
  }

  /** The requests sent, without their sockets and timestamps. */
  function Requests(outbox: seq<Emit>): (r: seq<Request>)
    ensures |r| == |outbox|
  {
    if outbox == [] then [] else Requests(outbox[..|outbox| - 1]) + [outbox[|outbox| - 1].request]
  }

  /** The i-th request is the one the i-th emit carries. */
  lemma {:induction false} RequestsInOrder(outbox: seq<Emit>)
    ensures forall j :: 0 <= j < |outbox| ==> Requests(outbox)[j] == outbox[j].request
  {
    if outbox != [] {
      RequestsInOrder(outbox[..|outbox| - 1]);
    }
  }

  /** Every key the run uses is routed to a peer it can connect to. */
  predicate RoutesValid(s: Setup)
  {
    forall i :: 0 <= i < s.maxIteration ==> s.address(s.getNode(s.getKey(i))).Some?
  }

  /** With faithful address formation, a peer can be connected to exactly
      when its id passes `validateAddress`. */
  lemma RoutesValidIff(s: Setup)
    requires Faithful(s)
    ensures RoutesValid(s) <==> forall i :: 0 <= i < s.maxIteration ==> ValidateAddress(s.getNode(s.getKey(i)))
  {
    assert forall i :: s.address(s.getNode(s.getKey(i))) == SocketAddress(s.getNode(s.getKey(i)));
  }

  /** A configuration `validateConfig` accepted, with every key of the run
      routed to one of its peers, routes every key validly. */
  lemma RoutesValidFromConfig(s: Setup, contents: string)
    requires Faithful(s)
    requires ValidateConfigSkippingEmpty(contents).Some?
    requires forall i :: 0 <= i < s.maxIteration ==> s.getNode(s.getKey(i)) in ValidateConfigSkippingEmpty(contents).value
    ensures RoutesValid(s)
  {
    var peers := ValidateConfigSkippingEmpty(contents).value;
    forall i | 0 <= i < s.maxIteration
      ensures ValidateAddress(s.getNode(s.getKey(i)))
    {
      var p := s.getNode(s.getKey(i));
      assert p in Split(contents, '\n') && p != "" by {
        assert p in peers;
      }
    }
    RoutesValidIff(s);
  }

  /** With faithful address formation, `delegateOperationToPeer` exits
      exactly for a peer id that fails `validateAddress`, and a new socket is
      opened to "http://" followed by the id with its spaces made colons. */
  lemma DelegateConnects(s: Setup, b: Bench, key: string, op: Op, params: Params, now: int)
    requires Faithful(s) && !b.exited
    ensures var r := Delegate(s, b, key, op, params, now);
            (r.exited <==> !ValidateAddress(s.getNode(key)))
            && (!r.exited && s.getNode(key) !in b.sockets ==>
                  r.addresses == b.addresses + ["http://" + Replace(s.getNode(key), ' ', ":")])
  {
    assert s.address(s.getNode(key)) == SocketAddress(s.getNode(key));
  }

  /** With faithful address formation, every cached socket belongs to a
      valid peer id and was opened to that peer's socket address. */
  lemma CachedSocketsConnect(s: Setup, b: Bench)
    requires Faithful(s) && SocketsValid(s, b)
    ensures forall p :: p in b.sockets ==>
              ValidateAddress(p) && b.addresses[b.sockets[p]] == "http://" + Replace(p, ' ', ":")
  {
    forall p | p in b.sockets
      ensures ValidateAddress(p) && b.addresses[b.sockets[p]] == "http://" + Replace(p, ' ', ":")
    {
      assert s.address(p) == SocketAddress(p);
    }
  }

  /** The run started: `doTest(PUT)` on the initial state. */
  function Start(s: Setup, now: int): Bench
  {
    DoTest(s, Initial, Put, now)
  }

  /** The server side of the closed loop: it answers the latest request with
      a reply that echoes its operation. The reply to request number `n`
      carries timestamp `stamp(n)` and arrives at time `arrival(n)`. */
  function Echo(s: Setup, arrival: nat -> int, stamp: nat -> int): Bench -> Bench
  {
    (b: Bench) =>
      if b.exited || |b.outbox| == 0 then b
      else Answered(s, b, b.outbox[|b.outbox| - 1].request.operation, arrival, stamp)
  }

  /** The closed loop: `fuel` bounds the replies `reply` delivers while the
      process is alive and has a request in flight. */
  function Run(reply: Bench -> Bench, b: Bench, fuel: nat): Bench
    decreases fuel
  {
    if b.exited || fuel == 0 || |b.outbox| == 0 then b
    else Run(reply, reply(b), fuel - 1)
  }

  /** The run is over: the process exited with both counters reset, after
      sending every PUT, then every GET, then every DELETE, in key order. */
  predicate Finished(s: Setup, r: Bench)
  {
    r.exited && r.iteration == 0 && r.totalLatency == 0
    && Requests(r.outbox) == Phase(s, Put) + Phase(s, Get) + Phase(s, Delete)
  }

  /** The requests of the phases that come before `op`. */
  function Before(s: Setup, op: Op): seq<Request>
  {
    match op
    case Put => []
    case Get => Phase(s, Put)
    case Delete => Phase(s, Put) + Phase(s, Get)
    case Unknown(_) => []
  }

  /** Mid-run: phase `op` has sent its requests for indices 0 to `i` - 1 and
      awaits the reply to the last of them. */
  predicate InPhase(s: Setup, b: Bench, op: Op, i: int)
  {
    !op.Unknown? && !b.exited && 1 <= i <= s.maxIteration && b.iteration == i
    && Requests(b.outbox) == Before(s, op) + Sent(s, op, i)
  }

  /** How many requests are still to be sent from that point. */
  function Remaining(s: Setup, op: Op, i: int): int
  {
    match op
    case Put => 3 * Rounds(s) - i
    case Get => 2 * Rounds(s) - i
    case Delete => Rounds(s) - i
    case Unknown(_) => 0
  }

  lemma RequestsIssued(b: Bench, r: Bench, req: Request)
    requires Issued(b, r, req)
    ensures Requests(r.outbox) == Requests(b.outbox) + [req]
  {
    assert r.outbox[..|r.outbox| - 1] == b.outbox;
  }

  /** The reply to the latest request names the current phase. */
  lemma LatestIsPhase(s: Setup, b: Bench, op: Op, i: int)
    requires InPhase(s, b, op, i)
    ensures |b.outbox| > 0 && b.outbox[|b.outbox| - 1].request.operation == op
  {
    var n := |b.outbox|;
    var before := Requests(b.outbox[..n - 1]);
    assert Requests(b.outbox) == before + [b.outbox[n - 1].request];
    assert Requests(b.outbox)[n - 1] == b.outbox[n - 1].request;
    assert Before(s, op) + Sent(s, op, i) == (Before(s, op) + Sent(s, op, i - 1)) + [Operation(s, op, i - 1)];
  }

  /** A reply in the middle of a phase moves it on by one index. */
  lemma ReplyWithin(s: Setup, b: Bench, op: Op, i: int, arrival: nat -> int, stamp: nat -> int)
    requires RoutesValid(s) && InPhase(s, b, op, i) && i < s.maxIteration
    ensures InPhase(s, Answered(s, b, op, arrival, stamp), op, i + 1)
  {
    var reply := OpStatus(op, stamp(|b.outbox|));
    var now := arrival(|b.outbox|);
    var next := OnOpStatus(s, b, reply, now);
    ReplyAccumulates(s, b, reply, now);
    RequestsIssued(b, next, Operation(s, op, i));
    assert Before(s, op) + Sent(s, op, i + 1) == (Before(s, op) + Sent(s, op, i)) + [Operation(s, op, i)];
  }

  /** The reply to the last PUT or GET starts the next phase. */
  lemma ReplyAdvances(s: Setup, b: Bench, op: Op, i: int, arrival: nat -> int, stamp: nat -> int)
    requires RoutesValid(s) && InPhase(s, b, op, i) && i == s.maxIteration
    requires op.Put? || op.Get?
    ensures InPhase(s, Answered(s, b, op, arrival, stamp), Next(op), 1)
  {
    var reply := OpStatus(op, stamp(|b.outbox|));
    var now := arrival(|b.outbox|);
    var counted := b.(totalLatency := b.totalLatency + (now - reply.timestamp));
    var next := OnOpStatus(s, b, reply, now);
    var req := Operation(s, Next(op), 0);
    StepAdvances(s, counted, op, now);
    RequestsIssued(b, next, req);
    assert Sent(s, Next(op), 1) == [req];
    assert Before(s, Next(op)) == Before(s, op) + Phase(s, op);
  }

  /** The reply to the last DELETE ends the run. */
  lemma ReplyFinishes(s: Setup, b: Bench, i: int, arrival: nat -> int, stamp: nat -> int)
    requires InPhase(s, b, Delete, i) && i == s.maxIteration
    ensures Finished(s, Answered(s, b, Delete, arrival, stamp))
  {
    var reply := OpStatus(Delete, stamp(|b.outbox|));
    var now := arrival(|b.outbox|);
    var counted := b.(totalLatency := b.totalLatency + (now - reply.timestamp));
    StepExits(s, counted, Delete, now);
  }

  /** The state the closed loop reaches by answering the latest request of
      phase `op`. */
  function Answered(s: Setup, b: Bench, op: Op, arrival: nat -> int, stamp: nat -> int): Bench
    requires !b.exited
  {
    OnOpStatus(s, b, OpStatus(op, stamp(|b.outbox|)), arrival(|b.outbox|))
  }

  /** `reply` moves the run through its phases as the benchmark's replies do. */
  ghost predicate Drives(s: Setup, reply: Bench -> Bench)
  {
    (forall b, op, i :: InPhase(s, b, op, i) && i < s.maxIteration ==> InPhase(s, reply(b), op, i + 1))
    && (forall b, op :: InPhase(s, b, op, s.maxIteration) && (op.Put? || op.Get?) ==> InPhase(s, reply(b), Next(op), 1))
    && (forall b :: InPhase(s, b, Delete, s.maxIteration) ==> Finished(s, reply(b)))
  }

  /** With every key routed to a valid peer, the echoing server drives the run. */
  lemma EchoDrives(s: Setup, arrival: nat -> int, stamp: nat -> int)
    requires RoutesValid(s)
    ensures Drives(s, Echo(s, arrival, stamp))
  {
    var reply := Echo(s, arrival, stamp);
    forall b, op, i | InPhase(s, b, op, i) && i < s.maxIteration
      ensures InPhase(s, reply(b), op, i + 1)
    {
      LatestIsPhase(s, b, op, i);
      ReplyWithin(s, b, op, i, arrival, stamp);
    }
    forall b, op | InPhase(s, b, op, s.maxIteration) && (op.Put? || op.Get?)
      ensures InPhase(s, reply(b), Next(op), 1)
    {
      LatestIsPhase(s, b, op, s.maxIteration);
      ReplyAdvances(s, b, op, s.maxIteration, arrival, stamp);
    }
    forall b | InPhase(s, b, Delete, s.maxIteration)
      ensures Finished(s, reply(b))
    {
      LatestIsPhase(s, b, Delete, s.maxIteration);
      ReplyFinishes(s, b, s.maxIteration, arrival, stamp);
    }
  }

  /** From the middle of a phase, enough replies finish the run. */
  lemma {:induction false} RunFrom(s: Setup, reply: Bench -> Bench, b: Bench, op: Op, i: int, fuel: nat)
    requires Drives(s, reply) && InPhase(s, b, op, i)
    requires fuel > Remaining(s, op, i)
    ensures Finished(s, Run(reply, b, fuel))
    decreases fuel, 1
  {
    LatestIsPhase(s, b, op, i);
    if i < s.maxIteration {
      RunWithin(s, reply, b, op, i, fuel);
    } else if op.Delete? {
      assert Finished(s, reply(b));
      assert Run(reply, reply(b), fuel - 1) == reply(b);
    } else {
      RunAdvance(s, reply, b, op, fuel);
    }
  }

  lemma {:induction false} RunWithin(s: Setup, reply: Bench -> Bench, b: Bench, op: Op, i: int, fuel: nat)
    requires Drives(s, reply) && InPhase(s, b, op, i) && i < s.maxIteration
    requires fuel > Remaining(s, op, i)
    ensures Finished(s, Run(reply, reply(b), fuel - 1))
    decreases fuel, 0
  {
    RunFrom(s, reply, reply(b), op, i + 1, fuel - 1);
  }

  lemma {:induction false} RunAdvance(s: Setup, reply: Bench -> Bench, b: Bench, op: Op, fuel: nat)
    requires Drives(s, reply) && InPhase(s, b, op, s.maxIteration) && (op.Put? || op.Get?)
    requires fuel > Remaining(s, op, s.maxIteration)
    ensures Finished(s, Run(reply, reply(b), fuel - 1))
    decreases fuel, 0
  {
    RunFrom(s, reply, reply(b), Next(op), 1, fuel - 1);
  }

  /** The whole benchmark, as a closed loop from `doTest(PUT)`: with every
      key routed to a valid peer, `3 * maxIteration` replies bring the
      process to its exit after it has sent `maxIteration` PUTs, then as
      many GETs, then as many DELETEs, each phase for key indices 0, 1, ...
      in order. */
  lemma ClosedLoop(s: Setup, now: int, arrival: nat -> int, stamp: nat -> int, fuel: nat)
    requires RoutesValid(s) && fuel >= 3 * Rounds(s)
    ensures Finished(s, Run(Echo(s, arrival, stamp), Start(s, now), fuel))
  {
    if s.maxIteration <= 0 {
      StepExits(s, Initial, Put, now);
    } else {
      StepIssues(s, Initial, Put, now);
      var b := Start(s, now);
      RequestsIssued(Initial, b, Operation(s, Put, 0));
      assert Sent(s, Put, 1) == [Operation(s, Put, 0)];
      EchoDrives(s, arrival, stamp);
      RunFrom(s, Echo(s, arrival, stamp), b, Put, 1, fuel);
    }
  }

  /** What the benchmark reads from the reply client.js's peer actually
      sends, `{ status: status }`: `response.operation` is undefined, which
      `doTest` treats as an unknown operation. */
  const Undefined: Op := Unknown("undefined")

  /** A server that answers every request with such a reply. */
  function StatusOnly(s: Setup, arrival: nat -> int, stamp: nat -> int): Bench -> Bench
  {
    (b: Bench) =>
      if b.exited || |b.outbox| == 0 then b
      else Answered(s, b, Undefined, arrival, stamp)
  }

  /** Such replies only add latency: nothing more is sent and nothing exits. */
  lemma {:induction false} StatusOnlyKeeps(s: Setup, arrival: nat -> int, stamp: nat -> int, b: Bench, fuel: nat)
    requires !b.exited
    ensures var r := Run(StatusOnly(s, arrival, stamp), b, fuel);
            !r.exited && r.outbox == b.outbox && r.iteration == b.iteration
    decreases fuel
  {
    if fuel > 0 && |b.outbox| > 0 {
      var reply := StatusOnly(s, arrival, stamp);
      assert reply(b).outbox == b.outbox && reply(b).iteration == b.iteration && !reply(b).exited;
      StatusOnlyKeeps(s, arrival, stamp, reply(b), fuel - 1);
    }
  }

  /** Against a peer that replies with the status alone, the run never gets
      past its first PUT, however many replies arrive. */
  lemma StatusOnlyStalls(s: Setup, now: int, arrival: nat -> int, stamp: nat -> int, fuel: nat)
    requires 0 < s.maxIteration && s.address(s.getNode(s.getKey(0))).Some?
    ensures var r := Run(StatusOnly(s, arrival, stamp), Start(s, now), fuel);
            !Finished(s, r) && Requests(r.outbox) == [Operation(s, Put, 0)]
  {
    StepIssues(s, Initial, Put, now);
    StatusOnlyKeeps(s, arrival, stamp, Start(s, now), fuel);
    RequestsInOrder(Start(s, now).outbox);
  }
}
