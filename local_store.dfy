/** The key-value store of a peer server: the module-level hashtable of
    client.js, the `putValue`, `getValue` and `deleteKey` operations on it,
    `performOperation` dispatching on the operation kind, and the handler of
    the 'operation' event that answers with the resulting status. */
module LocalStore {
  import opened Wrappers
  import opened Protocol

  /** The contents of the hashtable. */
  type Table = map<string, string>

  /** The raw results of the native hashtable library, which are not part
      of this model: the truthiness of what `put` returns and what `remove`
      returns, each as a function of the table before the call. */
  datatype Native = Native(put: (Table, string, string) -> bool, remove: (Table, string) -> bool)

  /** `getValue(key)`: the stored value when it is truthy, `null` when the
      key is absent or holds the empty string. */
  function Lookup(t: Table, key: string): (s: Status)
    ensures s.Found? || s.Null?
    ensures s.Found? <==> key in t && t[key] != ""
    ensures s.Found? ==> s.value == t[key]
  {
    var value := if key in t then Some(t[key]) else None;
    if value.Some? && value.value != "" then Found(value.value) else Null
  }

  /** The table after an operation, and the status it reports. */
  datatype Outcome = Outcome(table: Table, status: Status)

  /** `performOperation(operation, key, value)`: PUT stores the value,
      DELETE removes the key, GET and an unrecognised operation leave the
      table as it was; keys other than `key` are never touched. */
  function Perform(native: Native, t: Table, op: Op, key: string, value: string): (r: Outcome)
    ensures forall k :: k != key ==> (k in r.table <==> k in t)
    ensures forall k :: k != key && k in t ==> r.table[k] == t[k]
    ensures op.Get? || op.Unknown? ==> r.table == t
    ensures op.Put? ==> key in r.table && r.table[key] == value && r.status == Flag(native.put(t, key, value))
    ensures op.Get? ==> r.status == Lookup(t, key)
    ensures op.Delete? ==> key !in r.table && r.status == Flag(native.remove(t, key))
    ensures op.Unknown? ==> r.status == Noop
  {
    match op
    case Put => Outcome(t[key := value], Flag(native.put(t, key, value)))
    case Get => Outcome(t, Lookup(t, key))
    case Delete => Outcome(t - {key}, Flag(native.remove(t, key)))
    case Unknown(_) => Outcome(t, Noop)
  }

  /** A GET right after PUT(key, value) finds the value (or `null` for the
      empty string, which `getValue` treats as absent). */
  lemma PutThenGet(native: Native, t: Table, key: string, value: string, ignored: string)
    ensures Perform(native, Perform(native, t, Put, key, value).table, Get, key, ignored).status
         == if value == "" then Null else Found(value)
  {
  }

  /** A GET right after DELETE(key) finds nothing. */
  lemma DeleteThenGet(native: Native, t: Table, key: string, value: string, ignored: string)
    ensures Perform(native, Perform(native, t, Delete, key, value).table, Get, key, ignored).status == Null
  {
  }

  /** An operation on one key does not change what a GET of another key finds. */
  lemma OtherKeysUnaffected(native: Native, t: Table, op: Op, key: string, value: string, other: string)
    requires other != key
    ensures Lookup(Perform(native, t, op, key, value).table, other) == Lookup(t, other)
  {
  }

  /** The peer server's state: its hashtable and the native library behind it. */
  class Peer {
    var table: Table
    const native: Native

    /** A peer starts with an empty hashtable. */
    constructor (native: Native)
      ensures table == map[] && this.native == native
    {
      table := map[];
      this.native := native;
    }

    /** `putValue(key, value)`, coercing the library's result to a boolean. */
    method PutValue(key: string, value: string) returns (status: bool)
      modifies this
      ensures table == old(table)[key := value]
      ensures status == native.put(old(table), key, value)
    {
      status := native.put(table, key, value);
      table := table[key := value];
    }

    /** `getValue(key)`. */
    method GetValue(key: string) returns (status: Status)
      ensures status == Lookup(table, key)
    {
      var value := if key in table then Some(table[key]) else None;
      status := if value.Some? && value.value != "" then Found(value.value) else Null;
    }

    /** `deleteKey(key)`, passing the library's result through. */
    method DeleteKey(key: string) returns (status: bool)
      modifies this
      ensures table == old(table) - {key}
      ensures status == native.remove(old(table), key)
    {
      status := native.remove(table, key);
      table := table - {key};
    }

    /** `performOperation(operation, key, value)`. */
    method PerformOperation(operation: Op, key: string, value: string) returns (status: Status)
      modifies this
      ensures Outcome(table, status) == Perform(native, old(table), operation, key, value)
    {
      status := Noop;
      match operation {
        case Put =>
          var stored := PutValue(key, value);
          status := Flag(stored);
        case Get =>
          status := GetValue(key);
        case Delete =>
          var removed := DeleteKey(key);
          status := Flag(removed);
        case Unknown(_) =>
      }
    }

    /** The handler of an 'operation' event: perform it and answer with an
        'op_status' carrying the status. */
    method OnOperation(request: Request) returns (reply: Reply)
      modifies this
      ensures Outcome(table, reply.status)
           == Perform(native, old(table), request.operation, request.params.key, request.params.value)
    {
      var status := PerformOperation(request.operation, request.params.key, request.params.value);
      reply := Reply(status);
    }
  }
}
