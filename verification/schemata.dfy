/**
 * `SchemaSchemataScanner`: the rows of INFORMATION_SCHEMA.SCHEMATA. `start`
 * fetches the visible databases from the coordinator once; `get_next_row`
 * walks an index over them and writes one five-column row per call.
 */
module SchemataScanner {
  import opened Base
  import opened CString
  import opened Rows
  import opened Scanner

  // Column positions in the column table.
  const CATALOG_NAME: nat := 0
  const SCHEMA_NAME: nat := 1
  const DEFAULT_CHARACTER_SET_NAME: nat := 2
  const DEFAULT_COLLATION_NAME: nat := 3
  const SQL_PATH: nat := 4

  /** The column table: name and nullability, in slot order. */
  const COLUMNS: seq<ColumnDesc> := [
    ColumnDesc("CATALOG_NAME", true),
    ColumnDesc("SCHEMA_NAME", false),
    ColumnDesc("DEFAULT_CHARACTER_SET_NAME", false),
    ColumnDesc("DEFAULT_COLLATION_NAME", false),
    ColumnDesc("SQL_PATH", true)
  ]

  /** Five columns; only CATALOG_NAME and SQL_PATH may be null. */
  lemma ColumnTable()
    ensures |COLUMNS| == 5
    ensures forall c :: 0 <= c < |COLUMNS| ==>
      (COLUMNS[c].nullable <==> c == CATALOG_NAME || c == SQL_PATH)
    ensures COLUMNS[SCHEMA_NAME].name == "SCHEMA_NAME"
  {
  }

  // The two literal column values, without their terminators.
  const CHARSET: Bytes := [0x75, 0x74, 0x66, 0x38]  // "utf8"
  const COLLATION: Bytes :=
    [0x75, 0x74, 0x66, 0x38, 0x5f, 0x67, 0x65, 0x6e, 0x65, 0x72, 0x61, 0x6c, 0x5f, 0x63, 0x69]  // "utf8_general_ci"

  // Status messages.
  const START_NOT_INIT := "used before initial."
  const NO_ADDRESS := "IP or port doesn't exists"
  const NEXT_NOT_INIT := "Used before Initialized."
  const NULL_ARGUMENT := "input pointer is nullptr."
  const ALLOC_FAILED := "Allocate memory failed."

  /** `TGetDbsParams`: the request sent to the coordinator. */
  datatype DbsRequest = DbsRequest(
    pattern: Option<Bytes>,
    catalog: Option<Bytes>,
    currentUserIdent: Option<UserIdentity>,
    user: Option<Bytes>,
    userIp: Option<Bytes>)

  /**
   * `TGetDbsResult`: the raw database identifiers, and the catalog of each
   * (None when the coordinator left the list unset, which differs from empty).
   */
  datatype DbsResult = DbsResult(dbs: seq<Bytes>, catalogs: Option<seq<Bytes>>)

  /**
   * The scanner: the base class's init flag and parameters, the fetched
   * result and the index of the next database to emit.
   */
  datatype State = State(isInit: bool, param: Param, result: DbsResult, cursor: nat)

  /** The scanner after construction (index 0, default result) and the base class's init. */
  function Fresh(isInit: bool, param: Param): (s: State)
    ensures s.isInit == isInit && s.param == param
    ensures s.cursor == 0 && s.result.dbs == [] && s.result.catalogs.None?
  {
    State(isInit, param, DbsResult([], None), 0)
  }

  /** Builds the request from the scan parameters. */
  function BuildRequest(p: Param): (r: DbsRequest)
    ensures r.pattern == p.wild
    ensures r.catalog == p.catalog
    ensures p.currentUserIdent.Some? ==>
      r.currentUserIdent == p.currentUserIdent && r.user.None? && r.userIp.None?
    ensures p.currentUserIdent.None? ==>
      r.currentUserIdent.None? && r.user == p.user && r.userIp == p.userIp
  {
    var identity := p.currentUserIdent;
    DbsRequest(
      p.wild,
      p.catalog,
      identity,
      if identity.Some? then None else p.user,
      if identity.Some? then None else p.userIp)
  }

  /**
   * `start`: `fetch` is what the coordinator answers if it is called. The
   * call is made only when the scanner is initialised and the address is
   * usable; a failed fetch is returned as it came and leaves the scanner as
   * it was. The index is not reset.
   */
  function Start(s: State, fetch: Result<DbsResult>): (r: Started<State, DbsRequest>)
    ensures !s.isInit ==> r == Started(Internal(START_NOT_INIT), None, s)
    ensures s.isInit && !HasAddress(s.param) ==> r == Started(Internal(NO_ADDRESS), None, s)
    ensures r.sent.Some? <==> s.isInit && HasAddress(s.param)
    ensures r.sent.Some? ==>
      r.sent.value == Call(s.param.ip.value, s.param.port, BuildRequest(s.param))
    ensures r.status.Ok? <==> r.sent.Some? && fetch.Success?
    ensures r.sent.Some? && fetch.Failure? ==> r.status == Fail(fetch.error)
    ensures r.status.Ok? ==> r.state == s.(result := fetch.value)
    ensures !r.status.Ok? ==> r.state == s
    ensures r.state.cursor == s.cursor
  {
    if !s.isInit then Started(Internal(START_NOT_INIT), None, s)
    else
      var request := BuildRequest(s.param);
      if !HasAddress(s.param) then Started(Internal(NO_ADDRESS), None, s)
      else
        var call := Some(Call(s.param.ip.value, s.param.port, request));
        match fetch
        case Failure(e) => Started(Fail(e), call, s)
        case Success(result) => Started(Ok, call, s.(result := result))
  }

  /** Every database has a catalog entry, when the catalog list is set. */
  predicate CatalogsCover(r: DbsResult)
  {
    r.catalogs.Some? ==> |r.dbs| <= |r.catalogs.value|
  }

  /** Row `i` can be read: a database exists there, and a catalog if the list is set. */
  predicate Readable(r: DbsResult, i: nat)
  {
    i < |r.dbs| && (r.catalogs.Some? ==> i < |r.catalogs.value|)
  }

  /** A literal copied with its terminator, stored length `strlen + 1`. */
  function LiteralRef(lit: Bytes): StringRef
  {
    StringRef(lit + [NUL], |lit| + 1)
  }

  /**
   * The row for database `i`, as the column table describes it: the catalog
   * (null when the list is unset), the extracted schema name, the two
   * literals, and a null SQL_PATH.
   */
  function ExpectedRow(r: DbsResult, i: nat, extract: Bytes -> Bytes): seq<Cell>
    requires Readable(r, i)
  {
    [ if r.catalogs.Some? then Value(CopyRef(r.catalogs.value[i])) else Null,
      Value(CopyRef(extract(r.dbs[i]))),
      Value(LiteralRef(CHARSET)),
      Value(LiteralRef(COLLATION)),
      Null ]
  }

  /** The rows of the whole result, in order. */
  function ExpectedRows(r: DbsResult, extract: Bytes -> Bytes): (rows: seq<seq<Cell>>)
    requires CatalogsCover(r)
    ensures |rows| == |r.dbs|
    ensures forall i :: 0 <= i < |r.dbs| ==> rows[i] == ExpectedRow(r, i, extract)
  {
    seq(|r.dbs|, i requires 0 <= i < |r.dbs| => ExpectedRow(r, i, extract))
  }

  /** Bytes taken from the pool by the two unchecked allocations of row `i`. */
  function UncheckedBytes(r: DbsResult, i: nat, extract: Bytes -> Bytes): nat
    requires Readable(r, i)
  {
    (if r.catalogs.Some? then |r.catalogs.value[i]| else 0) + |extract(r.dbs[i])|
  }

  /** Bytes taken from the pool by row `i`. */
  function RowBytes(r: DbsResult, i: nat, extract: Bytes -> Bytes): nat
    requires Readable(r, i)
  {
    UncheckedBytes(r, i, extract) + (|CHARSET| + 1) + (|COLLATION| + 1)
  }

  /** Bytes taken from the pool by rows `from` onwards. */
  function BytesNeeded(r: DbsResult, from: nat, extract: Bytes -> Bytes): nat
    requires CatalogsCover(r)
    decreases |r.dbs| - from
  {
    if from >= |r.dbs| then 0 else RowBytes(r, from, extract) + BytesNeeded(r, from + 1, extract)
  }

  /**
   * `fill_one_row`: clears every null indicator, then writes the five columns
   * in order. The catalog and schema allocations are not checked, so a null
   * pool answer there is a write through a null pointer; a null answer for
   * either literal is reported. The index moves on only after a whole row.
   */
  function FillOneRow(s: State, t: Tuple, p: MemPool, extract: Bytes -> Bytes): (r: Step<State>)
    requires Readable(s.result, s.cursor)
    ensures r.Row? || r.FillFailed? || r.Fault?
    ensures r.Fault? <==> p.avail < UncheckedBytes(s.result, s.cursor, extract)
    ensures r.Row? <==> RowBytes(s.result, s.cursor, extract) <= p.avail
    ensures r.FillFailed? ==> r.error == Internal(ALLOC_FAILED)
    ensures r.Row? ==> r.state == s.(cursor := s.cursor + 1)
    ensures r.Row? ==> r.pool.avail + RowBytes(s.result, s.cursor, extract) == p.avail
    ensures r.Row? ==> View(r.tuple, COLUMNS) == ExpectedRow(s.result, s.cursor, extract)
    ensures r.Row? ==> (CATALOG_NAME in r.tuple.nulls <==> s.result.catalogs.None?)
    ensures r.Row? ==> SQL_PATH in r.tuple.nulls
    ensures r.Row? ==> forall c :: c in r.tuple.nulls ==> c < |COLUMNS| && COLUMNS[c].nullable
    ensures r.Row? ==> forall c :: c in t.slots && c > DEFAULT_COLLATION_NAME ==>
      c in r.tuple.slots && r.tuple.slots[c] == t.slots[c]
  {
    var cleared := t.(nulls := {});
    // CATALOG_NAME
    var afterCatalog: Option<(Tuple, MemPool)> :=
      match s.result.catalogs
      case None => Some((cleared.(nulls := {CATALOG_NAME}), p))
      case Some(catalogs) =>
        var name := catalogs[s.cursor];
        match Allocate(p, |name|)
        case None => None
        case Some(p1) => Some((cleared.(slots := cleared.slots[CATALOG_NAME := CopyRef(name)]), p1));
    match afterCatalog
    case None => Fault
    case Some((t1, p1)) =>
      // SCHEMA_NAME
      var db := extract(s.result.dbs[s.cursor]);
      match Allocate(p1, |db|)
      case None => Fault
      case Some(p2) =>
        var t2 := t1.(slots := t1.slots[SCHEMA_NAME := CopyRef(db)]);
        // DEFAULT_CHARACTER_SET_NAME
        match Allocate(p2, |CHARSET| + 1)
        case None => FillFailed(Internal(ALLOC_FAILED), p2)
        case Some(p3) =>
          var t3 := t2.(slots := t2.slots[DEFAULT_CHARACTER_SET_NAME := LiteralRef(CHARSET)]);
          // DEFAULT_COLLATION_NAME
          match Allocate(p3, |COLLATION| + 1)
          case None => FillFailed(Internal(ALLOC_FAILED), p3)
          case Some(p4) =>
            var t4 := t3.(slots := t3.slots[DEFAULT_COLLATION_NAME := LiteralRef(COLLATION)]);
            // SQL_PATH
            Row(t4.(nulls := t4.nulls + {SQL_PATH}), p4, s.(cursor := s.cursor + 1))
  }

  /** The call reaches `fill_one_row`. */
  predicate Fills(s: State, tuple: Option<Tuple>, pool: Option<MemPool>, eosPresent: bool)
  {
    s.isInit && ArgsPresent(tuple, pool, eosPresent) && s.cursor < |s.result.dbs|
  }

  /**
   * `get_next_row`: the init flag and the three pointers are checked first;
   * at or past the end of the databases it reports end of stream, otherwise
   * it fills one row. The source reads `catalogs[cursor]` unchecked, so a
   * filling call needs that entry to exist.
   */
  function GetNextRow(s: State, tuple: Option<Tuple>, pool: Option<MemPool>, eosPresent: bool,
                      extract: Bytes -> Bytes): (r: Step<State>)
    requires Fills(s, tuple, pool, eosPresent) ==> Readable(s.result, s.cursor)
    ensures !s.isInit ==> r == Rejected(Internal(NEXT_NOT_INIT))
    ensures s.isInit && !ArgsPresent(tuple, pool, eosPresent) ==> r == Rejected(Internal(NULL_ARGUMENT))
    ensures r.Rejected? <==> !(s.isInit && ArgsPresent(tuple, pool, eosPresent))
    ensures r.EndOfStream? <==>
      s.isInit && ArgsPresent(tuple, pool, eosPresent) && s.cursor >= |s.result.dbs|
    ensures Fills(s, tuple, pool, eosPresent) ==> r == FillOneRow(s, tuple.value, pool.value, extract)
    ensures r.StateAfter(s).cursor == s.cursor || r.StateAfter(s).cursor == s.cursor + 1
  {
    if !s.isInit then Rejected(Internal(NEXT_NOT_INIT))
    else if !ArgsPresent(tuple, pool, eosPresent) then Rejected(Internal(NULL_ARGUMENT))
    else if s.cursor >= |s.result.dbs| then EndOfStream
    else FillOneRow(s, tuple.value, pool.value, extract)
  }

  /** The index only moves on with a written row, by exactly one. */
  lemma CursorAdvancesOnlyOnRow(s: State, tuple: Option<Tuple>, pool: Option<MemPool>, eosPresent: bool,
                                extract: Bytes -> Bytes)
    requires Fills(s, tuple, pool, eosPresent) ==> Readable(s.result, s.cursor)
    ensures var r := GetNextRow(s, tuple, pool, eosPresent, extract);
      r.Row? <==> r.StateAfter(s).cursor == s.cursor + 1
    ensures var r := GetNextRow(s, tuple, pool, eosPresent, extract);
      !r.Row? ==> r.StateAfter(s) == s
  {
  }

  /** End of stream leaves everything in place, so every later call reports it again. */
  lemma EndOfStreamIsSticky(s: State, tuple: Option<Tuple>, pool: Option<MemPool>, eosPresent: bool,
                            tuple': Option<Tuple>, pool': Option<MemPool>, extract: Bytes -> Bytes)
    requires Fills(s, tuple, pool, eosPresent) ==> Readable(s.result, s.cursor)
    requires GetNextRow(s, tuple, pool, eosPresent, extract).EndOfStream?
    requires tuple'.Some? && pool'.Some?
    ensures var s' := GetNextRow(s, tuple, pool, eosPresent, extract).StateAfter(s);
      s' == s && GetNextRow(s', tuple', pool', true, extract).EndOfStream?
  {
  }

  /**
   * Before `start` the result is the empty default, so an initialised
   * scanner reports end of stream at once rather than an error.
   */
  lemma UnstartedScanIsEmpty(param: Param, t: Tuple, p: MemPool, extract: Bytes -> Bytes)
    ensures GetNextRow(Fresh(true, param), Some(t), Some(p), true, extract).EndOfStream?
    ensures GetNextRow(Fresh(false, param), Some(t), Some(p), true, extract)
      == Rejected(Internal(NEXT_NOT_INIT))
  {
  }

  /**
   * Two databases and no catalog list, from a fresh scanner: two rows with a
   * null catalog, named after the extracted database names, then end of
   * stream.
   */
  lemma TwoDatabasesTwoRows(param: Param, a: Bytes, b: Bytes, t: Tuple, p: MemPool,
                            extract: Bytes -> Bytes)
    requires HasAddress(param)
    requires |extract(a)| + |extract(b)| + 2 * ((|CHARSET| + 1) + (|COLLATION| + 1)) <= p.avail
    ensures var s0 := Start(Fresh(true, param), Success(DbsResult([a, b], None))).state;
      var r1 := GetNextRow(s0, Some(t), Some(p), true, extract);
      && r1.Row?
      && View(r1.tuple, COLUMNS)[CATALOG_NAME] == Null
      && View(r1.tuple, COLUMNS)[SCHEMA_NAME] == Value(CopyRef(extract(a)))
      && (var r2 := GetNextRow(r1.state, Some(r1.tuple), Some(r1.pool), true, extract);
          && r2.Row?
          && View(r2.tuple, COLUMNS)[CATALOG_NAME] == Null
          && View(r2.tuple, COLUMNS)[SCHEMA_NAME] == Value(CopyRef(extract(b)))
          && GetNextRow(r2.state, Some(r2.tuple), Some(r2.pool), true, extract).EndOfStream?)
  {
  }

  /**
   * The two literal columns keep their terminator inside the stored length:
   * the visible text is "utf8" or "utf8_general_ci", one byte shorter.
   */
  lemma LiteralColumnsCountTerminator(r: DbsResult, i: nat, extract: Bytes -> Bytes)
    requires Readable(r, i)
    ensures var row := ExpectedRow(r, i, extract);
      && row[DEFAULT_CHARACTER_SET_NAME] == Value(StringRef(CHARSET + [NUL], 5))
      && row[DEFAULT_COLLATION_NAME] == Value(StringRef(COLLATION + [NUL], 16))
    ensures StrLen(CHARSET + [NUL]) == 4 && StrLen(COLLATION + [NUL]) == 15
  {
    assert forall i :: 0 <= i < |CHARSET| ==> CHARSET[i] != NUL;
    assert forall i :: 0 <= i < |COLLATION| ==> COLLATION[i] != NUL;
    CStrStopsAtNul(CHARSET, []);
    CStrStopsAtNul(COLLATION, []);
    assert CHARSET + [NUL] + [] == CHARSET + [NUL];
    assert COLLATION + [NUL] + [] == COLLATION + [NUL];
  }

  /**
   * A `start` keeps the index: the next call reads the new result at the old
   * index, reporting end of stream when that index is at or past its end.
   */
  lemma RestartKeepsIndex(s: State, answer: DbsResult, t: Tuple, p: MemPool, extract: Bytes -> Bytes)
    requires Start(s, Success(answer)).status.Ok?
    requires s.cursor < |answer.dbs| ==> Readable(answer, s.cursor)
    ensures var s' := Start(s, Success(answer)).state;
      && s'.result == answer && s'.cursor == s.cursor
      && (GetNextRow(s', Some(t), Some(p), true, extract).EndOfStream? <==> s.cursor >= |answer.dbs|)
      && (s.cursor < |answer.dbs| ==>
            GetNextRow(s', Some(t), Some(p), true, extract) == FillOneRow(s', t, p, extract))
  {
  }

  /**
   * Pulling rows until end of stream, as the scan node does, starting at the
   * scanner's index. The rows come out in order, one per remaining database,
   * and the pull ends at end of stream whenever the pool can hold them all.
   * An index already past the end (a restart with a shorter result) gives
   * end of stream at once.
   */
  method ScanAll(s: State, tuple: Tuple, pool: MemPool, extract: Bytes -> Bytes)
    returns (rows: seq<seq<Cell>>, last: Step<State>, final: State)
    requires s.isInit
    requires CatalogsCover(s.result)
    ensures last.EndOfStream? || last.FillFailed? || last.Fault?
    ensures final == s.(cursor := s.cursor + |rows|)
    ensures s.cursor >= |s.result.dbs| ==> rows == [] && last.EndOfStream? && final == s
    ensures s.cursor <= |s.result.dbs| ==>
      final.cursor <= |s.result.dbs| && rows == ExpectedRows(s.result, extract)[s.cursor..final.cursor]
    ensures last.EndOfStream? ==> final.cursor == if s.cursor < |s.result.dbs| then |s.result.dbs| else s.cursor
    ensures BytesNeeded(s.result, s.cursor, extract) <= pool.avail ==> last.EndOfStream?
  {
    rows := [];
    final := s;
    var t, p := tuple, pool;
    while true
      invariant final == s.(cursor := s.cursor + |rows|)
      invariant s.cursor >= |s.result.dbs| ==> rows == []
      invariant s.cursor <= |s.result.dbs| ==> final.cursor <= |s.result.dbs|
      invariant s.cursor <= |s.result.dbs| ==>
        rows == ExpectedRows(s.result, extract)[s.cursor..final.cursor]
      invariant BytesNeeded(s.result, s.cursor, extract) <= pool.avail ==>
        BytesNeeded(s.result, final.cursor, extract) <= p.avail
      decreases |s.result.dbs| - final.cursor
    {
      last := GetNextRow(final, Some(t), Some(p), true, extract);
      if !last.Row? {
        return;
      }
      rows := rows + [View(last.tuple, COLUMNS)];
      t, p, final := last.tuple, last.pool, last.state;
    }
  }
}
