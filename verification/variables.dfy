/**
 * `SchemaVariablesScanner`: the rows of SHOW VARIABLES. `start` picks the
 * variable scope, fetches the variables from the coordinator once and puts
 * an iterator on the first; `get_next_row` writes one (name, value) row per
 * call.
 */
module VariablesScanner {
  import opened Base
  import opened CString
  import opened Rows
  import opened Scanner

  // Column positions in the column table.
  const VARIABLE_NAME: nat := 0
  const VARIABLE_VALUE: nat := 1

  /** The column table: name and nullability, in slot order. */
  const COLUMNS: seq<ColumnDesc> := [
    ColumnDesc("VARIABLE_NAME", false),
    ColumnDesc("VARIABLE_VALUE", false)
  ]

  /** Two columns, neither of which may be null. */
  lemma ColumnTable()
    ensures |COLUMNS| == 2
    ensures forall c :: 0 <= c < |COLUMNS| ==> !COLUMNS[c].nullable
    ensures COLUMNS[VARIABLE_NAME].name == "VARIABLE_NAME"
    ensures COLUMNS[VARIABLE_VALUE].name == "VARIABLE_VALUE"
  {
  }

  /** "GLOBAL" */
  const GLOBAL: Bytes := [0x47, 0x4c, 0x4f, 0x42, 0x41, 0x4c]

  // Status messages.
  const NO_ADDRESS := "IP or port doesn't exists"
  const NEXT_NOT_INIT := "call this before initial."
  const NULL_ARGUMENT := "invalid parameter."
  const NO_MEMORY := "No Memory."

  /** `TVarType`: the scope of the variables shown. */
  datatype VarType = Global | Session

  /** `TShowVariableRequest`: the request sent to the coordinator. */
  datatype VarRequest = VarRequest(varType: VarType, threadId: int)

  /**
   * `TShowVariableResult`: the variables as (name, value) pairs, in the
   * order the result's iterator visits them.
   */
  datatype VarResult = VarResult(variables: seq<(Bytes, Bytes)>)

  /**
   * The scanner: the base class's init flag and parameters, the scope given
   * to the constructor, the fetched result and the iterator `_begin` (None
   * while it is singular, before the first successful `start`).
   */
  datatype State = State(isInit: bool, param: Param, defaultType: VarType,
                         result: VarResult, begin: Option<nat>)

  /** The scanner after construction with scope `varType`, and the base class's init. */
  function Fresh(isInit: bool, param: Param, varType: VarType): (s: State)
    ensures s.isInit == isInit && s.param == param && s.defaultType == varType
    ensures s.begin.None? && !IteratorValid(s)
  {
    State(isInit, param, varType, VarResult([]), None)
  }

  /**
   * The scope: the `db` parameter, when set, carries it; only a C string
   * equal to "GLOBAL" selects GLOBAL, anything else SESSION. Without `db`
   * the constructor's scope is kept.
   */
  function SelectVarType(db: Option<Bytes>, default: VarType): (t: VarType)
    ensures db.None? ==> t == default
    ensures db.Some? ==> (t == Global <==> CStr(db.value) == GLOBAL)
  {
    match db
    case None => default
    case Some(d) => if CStr(d) == GLOBAL then Global else Session
  }

  /** The comparison goes through `c_str()`: bytes after an embedded NUL do not count. */
  lemma GlobalIgnoresBytesAfterNul(rest: Bytes, default: VarType)
    ensures SelectVarType(Some(GLOBAL + [NUL] + rest), default) == Global
  {
    CStrStopsAtNul(GLOBAL, rest);
  }

  /** Any other NUL-free `db` selects SESSION, whatever the constructor's scope. */
  lemma OtherDbSelectsSession(d: Bytes, default: VarType)
    requires NulFree(d) && d != GLOBAL
    ensures SelectVarType(Some(d), default) == Session
  {
    CStrOfNulFree(d);
  }

  /** Builds the request: the chosen scope and the caller's thread id. */
  function BuildRequest(s: State): (r: VarRequest)
    ensures r.threadId == s.param.threadId
    ensures s.param.db.None? ==> r.varType == s.defaultType
    ensures s.param.db.Some? ==> (r.varType == Global <==> CStr(s.param.db.value) == GLOBAL)
  {
    VarRequest(SelectVarType(s.param.db, s.defaultType), s.param.threadId)
  }

  /**
   * `start`: `fetch` is what the coordinator answers if it is called. The
   * init flag is not checked. The call is made only when the address is
   * usable; a failed fetch is returned as it came and leaves the scanner as
   * it was; a successful one stores the result and points the iterator at
   * its first variable.
   */
  function Start(s: State, fetch: Result<VarResult>): (r: Started<State, VarRequest>)
    ensures !HasAddress(s.param) ==> r == Started(Internal(NO_ADDRESS), None, s)
    ensures r.sent.Some? <==> HasAddress(s.param)
    ensures r.sent.Some? ==> r.sent.value == Call(s.param.ip.value, s.param.port,
      VarRequest(SelectVarType(s.param.db, s.defaultType), s.param.threadId))
    ensures r.status.Ok? <==> HasAddress(s.param) && fetch.Success?
    ensures HasAddress(s.param) && fetch.Failure? ==> r.status == Fail(fetch.error)
    ensures r.status.Ok? ==> r.state == s.(result := fetch.value, begin := Some(0))
    ensures !r.status.Ok? ==> r.state == s
  {
    var request := BuildRequest(s);
    if !HasAddress(s.param) then Started(Internal(NO_ADDRESS), None, s)
    else
      var call := Some(Call(s.param.ip.value, s.param.port, request));
      match fetch
      case Failure(e) => Started(Fail(e), call, s)
      case Success(result) => Started(Ok, call, s.(result := result, begin := Some(0)))
  }

  /**
   * A string copied as a C string: `strlen + 1` bytes are allocated and
   * hold the text before the first NUL and a terminator; the stored length
   * is `strlen`.
   */
  function CStrRef(s: Bytes): StringRef
  {
    StringRef(CStr(s) + [NUL], StrLen(s))
  }

  /** The stored text is the C string of the source, and the buffer ends with NUL right after it. */
  lemma CStrRefShape(s: Bytes)
    ensures var r := CStrRef(s);
      && r.size == StrLen(s)
      && |r.data| == r.size + 1
      && r.data[..r.size] == CStr(s)
      && r.data[r.size] == NUL
      && NulFree(r.data[..r.size])
      && r.data[..r.size] <= s
  {
    var r := CStrRef(s);
    assert r.data[..r.size] == CStr(s);
  }

  /** A value without NUL is stored whole. */
  lemma CStrRefOfNulFree(s: Bytes)
    requires NulFree(s)
    ensures CStrRef(s) == StringRef(s + [NUL], |s|)
  {
    CStrOfNulFree(s);
  }

  /** The row for one variable. */
  function ExpectedRow(v: (Bytes, Bytes)): seq<Cell>
  {
    [Value(CStrRef(v.0)), Value(CStrRef(v.1))]
  }

  /** The rows of the whole result, one per variable, in the iterator's order. */
  function ExpectedRows(r: VarResult): (rows: seq<seq<Cell>>)
    ensures |rows| == |r.variables|
    ensures forall i :: 0 <= i < |r.variables| ==> rows[i] == ExpectedRow(r.variables[i])
  {
    seq(|r.variables|, i requires 0 <= i < |r.variables| => ExpectedRow(r.variables[i]))
  }

  /** Bytes taken from the pool by the row for `v`. */
  function RowBytes(v: (Bytes, Bytes)): nat
  {
    (StrLen(v.0) + 1) + (StrLen(v.1) + 1)
  }

  /** Bytes taken from the pool by the variables from position `from` onwards. */
  function BytesNeeded(r: VarResult, from: nat): nat
    decreases |r.variables| - from
  {
    if from >= |r.variables| then 0 else RowBytes(r.variables[from]) + BytesNeeded(r, from + 1)
  }

  /** The iterator points into the result, or at its end. */
  predicate IteratorValid(s: State)
  {
    s.begin.Some? && s.begin.value <= |s.result.variables|
  }

  /**
   * `fill_one_row`: copies the name, then the value, of the current
   * variable as C strings; a null allocation reports "No Memory." and keeps
   * the iterator where it was. The null indicators are not touched.
   */
  function FillOneRow(s: State, t: Tuple, p: MemPool): (r: Step<State>)
    requires IteratorValid(s) && s.begin.value < |s.result.variables|
    ensures r.Row? || r.FillFailed?
    ensures r.Row? <==> RowBytes(s.result.variables[s.begin.value]) <= p.avail
    ensures r.FillFailed? ==> r.error == Internal(NO_MEMORY)
    ensures r.Row? ==> r.state == s.(begin := Some(s.begin.value + 1))
    ensures r.Row? ==> r.pool.avail + RowBytes(s.result.variables[s.begin.value]) == p.avail
    ensures r.Row? ==> View(r.tuple, COLUMNS) == ExpectedRow(s.result.variables[s.begin.value])
    ensures r.Row? ==> r.tuple.nulls == t.nulls
    ensures r.Row? ==> forall c :: c in t.slots && c > VARIABLE_VALUE ==>
      c in r.tuple.slots && r.tuple.slots[c] == t.slots[c]
  {
    var (name, value) := s.result.variables[s.begin.value];
    // variable name
    match Allocate(p, StrLen(name) + 1)
    case None => FillFailed(Internal(NO_MEMORY), p)
    case Some(p1) =>
      var t1 := t.(slots := t.slots[VARIABLE_NAME := CStrRef(name)]);
      // variable value
      match Allocate(p1, StrLen(value) + 1)
      case None => FillFailed(Internal(NO_MEMORY), p1)
      case Some(p2) =>
        var t2 := t1.(slots := t1.slots[VARIABLE_VALUE := CStrRef(value)]);
        Row(t2, p2, s.(begin := Some(s.begin.value + 1)))
  }

  /**
   * `get_next_row`: the init flag and the three pointers are checked first;
   * at the end of the variables it reports end of stream, otherwise it fills
   * one row. Comparing a singular iterator is undefined, so a call that gets
   * past the checks needs a `start` that succeeded.
   */
  function GetNextRow(s: State, tuple: Option<Tuple>, pool: Option<MemPool>, eosPresent: bool): (r: Step<State>)
    requires s.isInit && ArgsPresent(tuple, pool, eosPresent) ==> IteratorValid(s)
    ensures !s.isInit ==> r == Rejected(Internal(NEXT_NOT_INIT))
    ensures s.isInit && !ArgsPresent(tuple, pool, eosPresent) ==> r == Rejected(Internal(NULL_ARGUMENT))
    ensures r.Rejected? <==> !(s.isInit && ArgsPresent(tuple, pool, eosPresent))
    ensures r.EndOfStream? <==>
      s.isInit && ArgsPresent(tuple, pool, eosPresent) && s.begin == Some(|s.result.variables|)
    ensures s.isInit && ArgsPresent(tuple, pool, eosPresent) && s.begin.value < |s.result.variables| ==>
      r == FillOneRow(s, tuple.value, pool.value)
    ensures !r.Fault?
  {
    if !s.isInit then Rejected(Internal(NEXT_NOT_INIT))
    else if !ArgsPresent(tuple, pool, eosPresent) then Rejected(Internal(NULL_ARGUMENT))
    else if s.begin.value == |s.result.variables| then EndOfStream
    else FillOneRow(s, tuple.value, pool.value)
  }

  /** A successful `start`, from any scanner, leaves the iterator on the result's first variable. */
  lemma StartValidatesIterator(s: State, fetch: Result<VarResult>)
    ensures Start(s, fetch).status.Ok? ==>
      IteratorValid(Start(s, fetch).state) && Start(s, fetch).state.begin == Some(0)
  {
  }

  /** `get_next_row` keeps the iterator within the result or at its end. */
  lemma IteratorStaysValid(s: State, tuple: Option<Tuple>, pool: Option<MemPool>, eosPresent: bool)
    requires IteratorValid(s)
    ensures IteratorValid(GetNextRow(s, tuple, pool, eosPresent).StateAfter(s))
  {
  }

  /** End of stream leaves everything in place, so every later call reports it again. */
  lemma EndOfStreamIsSticky(s: State, tuple: Option<Tuple>, pool: Option<MemPool>, eosPresent: bool,
                            tuple': Option<Tuple>, pool': Option<MemPool>)
    requires s.isInit && ArgsPresent(tuple, pool, eosPresent) ==> IteratorValid(s)
    requires GetNextRow(s, tuple, pool, eosPresent).EndOfStream?
    requires tuple'.Some? && pool'.Some?
    ensures var s' := GetNextRow(s, tuple, pool, eosPresent).StateAfter(s);
      s' == s && GetNextRow(s', tuple', pool', true).EndOfStream?
  {
  }

  /**
   * Pulling rows until end of stream, as the scan node does, from a scanner
   * whose `start` succeeded. The rows come out in order, one per remaining
   * variable, and the pull ends at end of stream whenever the pool can hold
   * them all.
   */
  method ScanAll(s: State, tuple: Tuple, pool: MemPool)
    returns (rows: seq<seq<Cell>>, last: Step<State>, final: State)
    requires s.isInit && IteratorValid(s)
    ensures last.EndOfStream? || last.FillFailed?
    ensures final == s.(begin := Some(s.begin.value + |rows|))
    ensures final.begin.value <= |s.result.variables|
    ensures rows == ExpectedRows(s.result)[s.begin.value..final.begin.value]
    ensures last.EndOfStream? ==> final.begin.value == |s.result.variables|
    ensures BytesNeeded(s.result, s.begin.value) <= pool.avail ==> last.EndOfStream?
  {
    rows := [];
    final := s;
    var t, p := tuple, pool;
    while true
      invariant final == s.(begin := Some(s.begin.value + |rows|))
      invariant final.begin.value <= |s.result.variables|
      invariant rows == ExpectedRows(s.result)[s.begin.value..final.begin.value]
      invariant BytesNeeded(s.result, s.begin.value) <= pool.avail ==>
        BytesNeeded(s.result, final.begin.value) <= p.avail
      decreases |s.result.variables| - final.begin.value
    {
      last := GetNextRow(final, Some(t), Some(p), true);
      if !last.Row? {
        return;
      }
      rows := rows + [View(last.tuple, COLUMNS)];
      t, p, final := last.tuple, last.pool, last.state;
    }
  }
}
