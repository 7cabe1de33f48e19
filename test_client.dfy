/** The benchmark client of eval/test_client.js as the program holds it: its
    module-level variables as the fields of one object and each of its
    functions as a method on them. Every method leaves the object in the
    state the `Benchmark` step function of the same name computes. */
module TestClientState {
  import opened PeerAddress
  import opened Protocol
  import B = Benchmark

  class TestClient {
    const maxIteration: int
    const getNode: string -> string
    const getKey: int -> string
    const getValue: int -> string
    var iteration: int
    var totalLatency: int
    var sockets: map<string, nat>
    var addresses: seq<string>
    var outbox: seq<B.Emit>
    var exited: bool

    /** The fields as a `Bench` value. */
    function State(): B.Bench
      reads this
    {
      B.Bench(iteration, totalLatency, sockets, addresses, outbox, exited)
    }

    /** The fixed inputs, with socket addresses formed by `SocketAddress`. */
    function Inputs(): (s: B.Setup)
      ensures B.Faithful(s)
    {
      B.Setup(maxIteration, getNode, getKey, getValue, SocketAddress)
    }

    /** The module is loaded with both counters at 0 and no sockets. */
    constructor (maxIteration: int, getNode: string -> string, getKey: int -> string, getValue: int -> string)
      ensures Inputs() == B.Setup(maxIteration, getNode, getKey, getValue, SocketAddress)
      ensures State() == B.Initial
    {
      this.maxIteration := maxIteration;
      this.getNode := getNode;
      this.getKey := getKey;
      this.getValue := getValue;
      iteration := 0;
      totalLatency := 0;
      sockets := map[];
      addresses := [];
      outbox := [];
      exited := false;
    }

    /** `delegateOperationToPeer(key, operation, params)`. */
    method DelegateOperationToPeer(key: string, operation: Op, params: Params, now: int)
      requires !exited
      modifies this
      ensures State() == B.Delegate(Inputs(), old(State()), key, operation, params, now)
    {
      var peerID := getNode(key);
      var address := SocketAddress(peerID);
      if address.None? {
        exited := true;
        return;
      }
      if peerID in sockets {
        var socket := sockets[peerID];
        outbox := outbox + [B.Emit(socket, Request(operation, params), B.At(now))];
      } else {
        var socket := |addresses|;
        addresses := addresses + [address.value];
        outbox := outbox + [B.Emit(socket, Request(operation, params), B.OnConnect)];
        sockets := sockets[peerID := socket];
      }
    }

    /** The body shared by `testPut`, `testGet` and `testDelete`. */
    method TestPhase(operation: Op, now: int)
      requires !exited && !operation.Unknown?
      modifies this
      decreases B.Rank(operation), 1
      ensures State() == B.TestStep(Inputs(), old(State()), operation, now)
    {
      if iteration < maxIteration {
        SendNext(operation, now);
      } else {
        EndPhase(operation, now);
      }
    }

    /** Below `maxIteration`: send the request for key index `iteration`
        and count it. */
    method SendNext(operation: Op, now: int)
      requires !exited && !operation.Unknown? && iteration < maxIteration
      modifies this
      ensures State() == B.TestStep(Inputs(), old(State()), operation, now)
    {
      var key := getKey(iteration);
      DelegateOperationToPeer(key, operation, Params(key, getValue(iteration)), now);
      if !exited {
        iteration := iteration + 1;
      }
    }

    /** At `maxIteration`: reset both counters, then exit after DELETE or
        start the next phase. */
    method EndPhase(operation: Op, now: int)
      requires !exited && !operation.Unknown? && iteration >= maxIteration
      modifies this
      decreases B.Rank(operation), 0
      ensures State() == B.TestStep(Inputs(), old(State()), operation, now)
    {
      iteration := 0;
      totalLatency := 0;
      if operation.Delete? {
        exited := true;
      } else {
        DoTest(B.Next(operation), now);
      }
    }

    /** `testPut()`. */
    method TestPut(now: int)
      requires !exited
      modifies this
      decreases B.Rank(Put), 2
      ensures State() == B.TestStep(Inputs(), old(State()), Put, now)
    {
      TestPhase(Put, now);
    }

    /** `testGet()`. */
    method TestGet(now: int)
      requires !exited
      modifies this
      decreases B.Rank(Get), 2
      ensures State() == B.TestStep(Inputs(), old(State()), Get, now)
    {
      TestPhase(Get, now);
    }

    /** `testDelete()`. */
    method TestDelete(now: int)
      requires !exited
      modifies this
      decreases B.Rank(Delete), 2
      ensures State() == B.TestStep(Inputs(), old(State()), Delete, now)
    {
      TestPhase(Delete, now);
    }

    /** `doTest(operation)`. */
    method DoTest(operation: Op, now: int)
      requires !exited
      modifies this
      decreases B.Rank(operation), 3
      ensures State() == B.DoTest(Inputs(), old(State()), operation, now)
    {
      match operation {
        case Put => TestPut(now);
        case Get => TestGet(now);
        case Delete => TestDelete(now);
        case Unknown(_) =>
      }
    }

    /** The 'op_status' handler of a socket. */
    method OnOpStatus(response: B.OpStatus, now: int)
      requires !exited
      modifies this
      ensures State() == B.OnOpStatus(Inputs(), old(State()), response, now)
    {
      var latency := now - response.timestamp;
      AddLatency(latency);
      DoTest(response.operation, now);
    }

    /** `totalLatency += latency`. */
    method AddLatency(latency: int)
      modifies this
      ensures State() == old(State()).(totalLatency := old(totalLatency) + latency)
    {
      totalLatency := totalLatency + latency;
    }
  }
}
