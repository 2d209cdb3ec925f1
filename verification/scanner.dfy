/**
 * The parts of the `SchemaScanner` base class that both scanners use: the
 * scan parameters, the remote call a `start` issues, and the outcome of one
 * `get_next_row`.
 */
module Scanner {
  import opened Base
  import opened CString
  import opened Rows

  /** A Thrift `TUserIdentity`. */
  datatype UserIdentity = UserIdentity(username: Bytes, host: Bytes, isDomain: bool)

  /** `SchemaScannerParam`: every pointer field is an Option. */
  datatype Param = Param(
    db: Option<Bytes>,
    wild: Option<Bytes>,
    user: Option<Bytes>,
    userIp: Option<Bytes>,
    currentUserIdent: Option<UserIdentity>,
    ip: Option<Bytes>,
    port: int,
    threadId: int,
    catalog: Option<Bytes>)

  /** The coordinator address is usable: `ip` is set and `port` is not 0. */
  predicate HasAddress(p: Param)
  {
    p.ip.Some? && p.port != 0
  }

  /** The remote call made by `start`: the coordinator address and the request. */
  datatype Call<Q> = Call(ip: Bytes, port: int, request: Q)

  /**
   * The outcome of `start`: the status returned, the call made (None when no
   * call was made) and the scanner afterwards.
   */
  datatype Started<S, Q> = Started(status: Status, sent: Option<Call<Q>>, state: S)

  /**
   * The outcome of one `get_next_row(tuple, pool, eos)`:
   *   Rejected     an error before anything is written: `*eos`, the tuple, the
   *                pool and the scanner are untouched;
   *   EndOfStream  OK with `*eos = true`; nothing else is touched;
   *   Row          OK with `*eos = false`; one row written into `tuple`,
   *                allocations taken from `pool`, the scanner moved on;
   *   FillFailed   an error with `*eos = false`, after a null allocation;
   *                the scanner is not moved on and the row is not usable;
   *   Fault        a write through a null pointer: undefined behaviour.
   */
  datatype Step<S> =
    | Rejected(error: Status)
    | EndOfStream
    | Row(tuple: Tuple, pool: MemPool, state: S)
    | FillFailed(error: Status, pool: MemPool)
    | Fault
  {
    /** The scanner after the call, given the scanner `s` before it. */
    function StateAfter(s: S): S
    {
      if Row? then state else s
    }
  }

  /**
   * The three pointer arguments of `get_next_row` are all non-null;
   * `eosPresent` says whether the `eos` pointer is non-null.
   */
  predicate ArgsPresent(tuple: Option<Tuple>, pool: Option<MemPool>, eosPresent: bool)
  {
    tuple.Some? && pool.Some? && eosPresent
  }
}
