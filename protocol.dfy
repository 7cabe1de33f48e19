/** The messages exchanged between a requesting client and a peer server over
    socket.io: the operation kinds of the constants module, the `params` of a
    request and the status a peer reports back. */
module Protocol {
  /** The operation of a request. PUT, GET and DELETE are three distinct
      constants; any other tag is an operation no peer recognises. */
  datatype Op = Put | Get | Delete | Unknown(tag: string)

  /** The `params` object of an 'operation' request: `{ key, value }`. */
  datatype Params = Params(key: string, value: string)

  /** `{ operation, params }`, the payload of an 'operation' event. */
  datatype Request = Request(operation: Op, params: Params)

  /** What `performOperation` reports: the boolean of `putValue` or
      `deleteKey`, the value found by `getValue` or its `null`, or NOOP when
      the operation was not recognised. */
  datatype Status = Flag(b: bool) | Found(value: string) | Null | Noop

  /** `{ status }`, the payload of the 'op_status' event a peer server sends. */
  datatype Reply = Reply(status: Status)
}
