/** The output side of a scan: pooled string slots, the row buffer, and the column table. */
module Rows {
  import opened Base
  import opened CString

  /**
   * A `StringRef` slot: `data` is the content of the buffer obtained from the
   * pool (exactly as many bytes as were allocated), `size` the stored length.
   */
  datatype StringRef = StringRef(data: Bytes, size: nat)

  /**
   * The caller's row buffer (`Tuple`), seen through its descriptor: the set of
   * columns whose null indicator is raised, and the `StringRef` held in each
   * column's slot. A column missing from `slots` holds whatever the caller left.
   */
  datatype Tuple = Tuple(nulls: set<nat>, slots: map<nat, StringRef>)

  /** One entry of a scanner's column table; every column here is a VARCHAR. */
  datatype ColumnDesc = ColumnDesc(name: string, nullable: bool)

  /** What a reader of the row sees in one column. */
  datatype Cell = Null | Value(ref: StringRef) | Unwritten

  /**
   * The value of column `c`. Only a nullable column has a null indicator:
   * for a non-nullable one the null bit is never consulted.
   */
  function CellAt(t: Tuple, cols: seq<ColumnDesc>, c: nat): Cell
    requires c < |cols|
  {
    if cols[c].nullable && c in t.nulls then Null
    else if c in t.slots then Value(t.slots[c])
    else Unwritten
  }

  /** The row held in `t`, column by column. */
  function View(t: Tuple, cols: seq<ColumnDesc>): (v: seq<Cell>)
    ensures |v| == |cols|
    ensures forall c :: 0 <= c < |cols| ==> v[c] == CellAt(t, cols, c)
  {
    seq(|cols|, c requires 0 <= c < |cols| => CellAt(t, cols, c))
  }

  /** A slot holding a byte-for-byte copy of `s`, with `size == s.size()`. */
  function CopyRef(s: Bytes): StringRef
  {
    StringRef(s, |s|)
  }

  /**
   * A memory pool that can still hand out `avail` bytes: an allocation of `n`
   * bytes fails (returns null) exactly when `n` exceeds what is left.
   */
  datatype MemPool = MemPool(avail: nat)

  /** `pool->allocate(n)`: the pool after the allocation, or None for a null pointer. */
  function Allocate(p: MemPool, n: nat): Option<MemPool>
  {
    if n <= p.avail then Some(MemPool(p.avail - n)) else None
  }
}
