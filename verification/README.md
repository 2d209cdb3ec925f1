# Information-schema row scanners

A Dafny model of two sibling scanners of the Doris backend that produce the
rows of system views:

- `SchemaSchemataScanner` (INFORMATION_SCHEMA.SCHEMATA): `start` builds a
  `TGetDbsParams` request from the scan parameters and fetches the visible
  databases (and optionally their catalogs) from the coordinator once;
  `get_next_row` walks an index `_db_index` over the databases and writes one
  five-column row per call: CATALOG_NAME (null when the catalog list is
  unset), SCHEMA_NAME (the extracted database name), the literals `utf8` and
  `utf8_general_ci` stored with their terminator (`strlen + 1` bytes), and a
  null SQL_PATH.
- `SchemaVariablesScanner` (SHOW VARIABLES): `start` picks GLOBAL, SESSION or
  the constructor's scope from the `db` parameter, fetches the variables and
  points an iterator at the first; `get_next_row` writes one (name, value)
  row per call, each column a C-string copy: `strlen + 1` bytes allocated,
  stored length `strlen`.

Each scanner is an immutable state (init flag, parameters, fetched result,
cursor or iterator) with pure transition functions `Start` and `GetNextRow`.
`Start` returns the status, the remote call it made (None when it made none)
and the new state; the coordinator's answer is an input. `GetNextRow` returns
a `Step`: `Rejected` (usage error, nothing touched), `EndOfStream` (`*eos =
true`, nothing written), `Row` (`*eos = false`, the row written, the cursor
moved by one), `FillFailed` (an allocation came back null, cursor kept) or
`Fault` (a write through a null pointer). The caller's row buffer is a
`Tuple` of null indicators and `StringRef` slots, read back column by column
with `Rows.View`; the memory pool is a bump allocator with `avail` bytes
whose allocation fails exactly when the request exceeds what is left.

Files: `base.dfy` (status and wrappers), `cstring.dfy` (bytes, `strlen`,
`c_str()`), `rows.dfy` (slots, tuple, column table, pool), `scanner.dfy`
(what both scanners share), `schemata.dfy`, `variables.dfy`.

Behaviour of the code worth knowing:

- `SchemaSchemataScanner::start` does not reset `_db_index`; only the
  constructor sets it to 0. A second `start` re-fetches and keeps the index
  (`SchemataScanner.Start` ensures `r.state.cursor == s.cursor`).
- `get_next_row` after the base-class init but before `start` is not an
  error for the schemata scanner: the default result has no databases, so it
  reports end of stream (`SchemataScanner.UnstartedScanIsEmpty`).
- `SchemaVariablesScanner::start` does not check the init flag.
- The catalog and schema allocations of the schemata scanner are not checked
  for null, while the two literal ones are; the model keeps that difference
  (`Fault` versus `FillFailed`).

## Model

| member | source | states |
|---|---|---|
| SchemataScanner.ColumnTable | be/src/exec/schema_scanner/schema_schemata_scanner.cpp:26-33 | five VARCHAR columns in slot order, of which exactly CATALOG_NAME and SQL_PATH are nullable |
| SchemataScanner.Fresh | be/src/exec/schema_scanner/schema_schemata_scanner.cpp:35-37 | a constructed scanner starts at index 0 with the default result: no databases and the catalog list unset |
| SchemataScanner.BuildRequest | be/src/exec/schema_scanner/schema_schemata_scanner.cpp:45-61 | pattern and catalog are copied only when supplied; an explicit user identity is sent alone, otherwise user and user_ip are each sent only when supplied |
| SchemataScanner.Start | be/src/exec/schema_scanner/schema_schemata_scanner.cpp:41-71 | uninitialised: "used before initial." and no call; missing ip or port 0: "IP or port doesn't exists" and no call; otherwise exactly one call with the built request, a fetch error returned verbatim with the state kept, a success storing the result; the index is never reset |
| SchemataScanner.RestartKeepsIndex | be/src/exec/schema_scanner/schema_schemata_scanner.cpp:41-71 | after a successful start the scanner holds the new result at the old index: the next call reports end of stream iff that index is at or past the new result's end, and otherwise fills the row at that index |
| SchemataScanner.FillOneRow | be/src/exec/schema_scanner/schema_schemata_scanner.cpp:73-125 | a row is written iff the pool holds all four allocations; it equals the column-table row (catalog or null, extracted schema, the two literals with terminator, null SQL_PATH); null bits are exactly CATALOG_NAME when catalogs are unset plus SQL_PATH, all on nullable columns; a failed literal allocation reports "Allocate memory failed." and keeps the index; a failed catalog/schema allocation is a null write; on success the index moves by one and the pool shrinks by the row's bytes |
| SchemataScanner.GetNextRow | be/src/exec/schema_scanner/schema_schemata_scanner.cpp:127-140 | uninitialised or a null pointer argument: an error and nothing changes; end of stream iff the index is at or past the number of databases; otherwise one fill; the index moves by at most one |
| SchemataScanner.CursorAdvancesOnlyOnRow | be/src/exec/schema_scanner/schema_schemata_scanner.cpp:123-139 | the index moves, by exactly one, iff a row was written; every other outcome leaves the scanner as it was |
| SchemataScanner.EndOfStreamIsSticky | be/src/exec/schema_scanner/schema_schemata_scanner.cpp:134-137 | end of stream changes no state, so the next call with valid arguments reports end of stream again |
| SchemataScanner.UnstartedScanIsEmpty | be/src/exec/schema_scanner/schema_schemata_scanner.cpp:35-37 | a constructed, initialised but unstarted scanner reports end of stream at once; an uninitialised one reports "Used before Initialized." |
| SchemataScanner.TwoDatabasesTwoRows | be/src/exec/schema_scanner/schema_schemata_scanner.cpp:134-139 | with two databases and the catalog list unset, a started scanner yields two rows with a null catalog and the extracted names in order, then end of stream |
| SchemataScanner.LiteralColumnsCountTerminator | be/src/exec/schema_scanner/schema_schemata_scanner.cpp:100-120 | the charset and collation cells hold "utf8" and "utf8_general_ci" plus NUL with stored lengths 5 and 16, one more than their visible text |
| SchemataScanner.ScanAll | be/src/exec/schema_scanner/schema_schemata_scanner.cpp:127-140 | pulling until end of stream yields the expected rows in database order, one per remaining database, ends with the index at the number of databases, and always reaches end of stream when the pool holds all rows' bytes; an index already past the end gives no rows and end of stream at once |
| VariablesScanner.ColumnTable | be/src/exec/schema_scanner/schema_variables_scanner.cpp:27-31 | two VARCHAR columns, VARIABLE_NAME then VARIABLE_VALUE, neither nullable |
| VariablesScanner.Fresh | be/src/exec/schema_scanner/schema_variables_scanner.cpp:33-36 | a constructed scanner keeps the scope given to the constructor and its iterator is not yet usable |
| VariablesScanner.SelectVarType | be/src/exec/schema_scanner/schema_variables_scanner.cpp:43-51 | no `db`: the constructor's scope; a `db` whose C string is "GLOBAL": GLOBAL; any other `db`: SESSION |
| VariablesScanner.GlobalIgnoresBytesAfterNul | be/src/exec/schema_scanner/schema_variables_scanner.cpp:44-44 | the strcmp on `c_str()` makes "GLOBAL" followed by NUL and anything else select GLOBAL |
| VariablesScanner.OtherDbSelectsSession | be/src/exec/schema_scanner/schema_variables_scanner.cpp:44-48 | every NUL-free `db` other than "GLOBAL" selects SESSION regardless of the constructor's scope |
| VariablesScanner.BuildRequest | be/src/exec/schema_scanner/schema_variables_scanner.cpp:43-52 | the request carries the caller's thread id and the scope: the constructor's without `db`, GLOBAL iff the C string of `db` is "GLOBAL" |
| VariablesScanner.Start | be/src/exec/schema_scanner/schema_variables_scanner.cpp:40-62 | no init check; missing ip or port 0: "IP or port doesn't exists" and no call; otherwise one call carrying the selected scope and the thread id, a fetch error returned verbatim with the state kept, a success storing the result with the iterator on its first variable |
| VariablesScanner.CStrRefShape | be/src/exec/schema_scanner/schema_variables_scanner.cpp:66-76 | a copied column stores `strlen` of the source as its size, in a buffer of size + 1 bytes holding the NUL-free prefix of the source and a terminator |
| VariablesScanner.CStrRefOfNulFree | be/src/exec/schema_scanner/schema_variables_scanner.cpp:78-88 | a value without NUL is stored whole, with its length as size and one extra terminator byte |
| VariablesScanner.FillOneRow | be/src/exec/schema_scanner/schema_variables_scanner.cpp:64-91 | a row is written iff the pool holds both C-string copies; it holds the current variable's name and value; null bits are untouched; a failed allocation reports "No Memory." and keeps the iterator; on success the iterator moves by one and the pool shrinks by the row's bytes |
| VariablesScanner.GetNextRow | be/src/exec/schema_scanner/schema_variables_scanner.cpp:93-106 | uninitialised or a null pointer argument: an error and nothing changes; end of stream iff the iterator is at the end; otherwise one fill; never a null write |
| VariablesScanner.StartValidatesIterator | be/src/exec/schema_scanner/schema_variables_scanner.cpp:54-61 | from any scanner, a fresh one included, a successful start puts the iterator on the first variable of the result |
| VariablesScanner.IteratorStaysValid | be/src/exec/schema_scanner/schema_variables_scanner.cpp:100-105 | every get_next_row keeps a valid iterator within the result or at its end |
| VariablesScanner.EndOfStreamIsSticky | be/src/exec/schema_scanner/schema_variables_scanner.cpp:100-103 | end of stream changes no state, so the next call with valid arguments reports end of stream again |
| VariablesScanner.ScanAll | be/src/exec/schema_scanner/schema_variables_scanner.cpp:93-106 | pulling until end of stream yields one row per remaining variable in the result's order, and always reaches end of stream when the pool holds all rows' bytes |
| CString.StrLen | be/src/exec/schema_scanner/schema_variables_scanner.cpp:69-69 | `strlen` is the position of the first NUL, or the whole length when there is none |
| CString.StrLenUnique | be/src/exec/schema_scanner/schema_variables_scanner.cpp:81-81 | any length with no NUL before it and a NUL at it (or at the end) is `strlen` |
| CString.CStrStopsAtNul | be/src/exec/schema_scanner/schema_variables_scanner.cpp:44-44 | `c_str()` of a string with an embedded NUL is the part before it |

## Left out

- `SchemaHelper::get_db_names` and `SchemaHelper::show_variables` (remote calls): their answer is an input `Result`; what they leave in the result buffer after a failure is not modelled (the state is kept).
- `SchemaHelper::extract_db_name`: its source is not part of this model; it is the function parameter `extract`.
- Raw memory: tuple offsets, the null-byte `memset`, `memcpy` and `MemPool` chunking are abstracted to the `Tuple` map, the null-indicator set and a pool with a byte budget.
- The contents of the row buffer after a failed fill are not modelled; the caller discards that row.
- `Fault`: a write through a null pointer is undefined behaviour; the model only says that it happens, not what follows.
- SchemataScanner.GetNextRow: requires the catalog entry at the index to exist when the catalog list is set, because the source reads `catalogs[_db_index]` without a bounds check.
- VariablesScanner.GetNextRow: requires a successful `start` before a call that passes the init and pointer checks, because the source then compares a singular iterator.
- VariablesScanner.FillOneRow: does not model the `int len` overflow of names or values of 2^31 bytes or more.
- The base class (`SchemaScanner::init`, the tuple descriptor, `RuntimeState`) is reduced to the init flag and the parameters; `Fresh` stands for construction plus init.
- The variables result is taken in the order its iterator visits it; the Thrift container type behind it is not part of this model.
- be/test/olap/rowset/segment_v2/block_bloom_filter_test.cpp: tests a bloom filter whose implementation is not part of this model, with random data and floating-point rates.
- be/src/olap/rowset/vertical_beta_rowset_writer.h: declarations only, for segment-file writing (I/O).
