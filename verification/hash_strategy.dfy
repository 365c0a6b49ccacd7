/** DBRouterStrategyHashCode: hash routing (String.hashCode, the high-bit perturbation,
    the mask by dbCount * tbCount - 1, the split into a database and a table index) and
    manual routing (setDBKey / setTBKey with their fallbacks), both writing the routing
    context. */
module HashStrategy {
  import opened JavaLang
  import opened Bits32
  import opened Decimal
  import opened RouterConfig
  import opened ContextHolder

  // ---------------------------------------------------------------------------------
  // String.hashCode

  type CodeUnit = x: int | 0 <= x < 0x1_0000

  /** The UTF-16 code units Java stores for one character: itself below U+10000,
      otherwise its surrogate pair. */
  function Utf16Char(c: char): (u: seq<CodeUnit>)
    ensures 1 <= |u| <= 2
  {
    var v := c as int;
    if v < 0x1_0000 then [v]
    else [0xD800 + (v - 0x1_0000) / 0x400, 0xDC00 + (v - 0x1_0000) % 0x400]
  }

  /** The UTF-16 code units of a string, the sequence String.hashCode runs over. */
  function Utf16(s: string): (u: seq<CodeUnit>)
    ensures |s| <= |u| <= 2 * |s|
  {
    if s == [] then [] else Utf16(s[..|s| - 1]) + Utf16Char(s[|s| - 1])
  }

  /** The loop `h = 31 * h + val[i]` over the code units, in 32-bit wrapping int
      arithmetic, as the bit pattern of the resulting int. */
  function HashUnits(u: seq<CodeUnit>): Word
  {
    if u == [] then 0 else (31 * HashUnits(u[..|u| - 1]) + u[|u| - 1]) % WordModulus
  }

  /** The bits of String.hashCode: the documented polynomial over the UTF-16 code units,
      taken modulo 2^32. */
  function HashCode(s: string): (h: Word)
    ensures h == PolySum(Utf16(s)) % WordModulus
  {
    HashIsPolynomial(Utf16(s));
    HashUnits(Utf16(s))
  }

  function Pow31(k: nat): (p: nat)
    ensures p >= 1
  {
    if k == 0 then 1 else 31 * Pow31(k - 1)
  }

  /** The documented formula s[0]*31^(n-1) + s[1]*31^(n-2) + ... + s[n-1], unbounded. */
  function PolySum(u: seq<CodeUnit>): nat
  {
    if u == [] then 0 else u[0] * Pow31(|u| - 1) + PolySum(u[1..])
  }

  lemma {:induction false} PolySumSnoc(u: seq<CodeUnit>, c: CodeUnit)
    ensures PolySum(u + [c]) == 31 * PolySum(u) + c
    decreases |u|
  {
    if u != [] {
      assert (u + [c])[1..] == u[1..] + [c];
      PolySumSnoc(u[1..], c);
      assert Pow31(|u|) == 31 * Pow31(|u| - 1);
    }
  }

  lemma ModAddMultiple(x: int, m: int, k: int)
    requires m > 0
    ensures (x + m * k) % m == x % m
  {
    assert x == m * (x / m) + x % m;
    assert x + m * k == m * (x / m + k) + x % m;
    DivModUnique(x + m * k, m, x / m + k, x % m);
  }

  lemma ModLinear(p: int, m: int, a: int, c: int)
    requires m > 0
    ensures (a * (p % m) + c) % m == (a * p + c) % m
  {
    assert p == m * (p / m) + p % m;
    assert a * p + c == (a * (p % m) + c) + m * (a * (p / m));
    ModAddMultiple(a * (p % m) + c, m, a * (p / m));
  }

  /** The wrapping loop computes the documented polynomial modulo 2^32. */
  lemma {:induction false} HashIsPolynomial(u: seq<CodeUnit>)
    ensures HashUnits(u) == PolySum(u) % WordModulus
    decreases |u|
  {
    if u != [] {
      var init, c := u[..|u| - 1], u[|u| - 1];
      assert u == init + [c];
      HashIsPolynomial(init);
      PolySumSnoc(init, c);
      ModLinear(PolySum(init), WordModulus, 31, c);
    }
  }

  // ---------------------------------------------------------------------------------
  // Index arithmetic

  /** The perturbation `h ^ (h >>> 16)`. It keeps the high 16 bits, so xoring them back
      in undoes it: no two hashes are mixed into the same word. */
  function Mix(h: Word): (r: Word)
    ensures UShr(r, 16) == UShr(h, 16)
    ensures XorWord(r, UShr(h, 16)) == h
  {
    Pow2Of32();
    var high := UShr(h, 16);
    var r := XorWord(h, high);
    ShrIsDiv(r, 16);
    ShrIsDiv(h, 16);
    ShrIsDiv(high, 16);
    XorShift(h, high, 32, 16);
    XorZero(high, 16);
    XorCancel(h, high, 32);
    r
  }

  /** Mixing twice gives the hash back. */
  lemma MixIsInvolution(h: Word)
    ensures Mix(Mix(h)) == h
  {
    var r := Mix(h);
    assert Mix(r) == XorWord(r, UShr(r, 16));
  }

  /** `(size - 1) & (h ^ (h >>> 16))`, as the int Java holds. For any positive size that
      is a Java int, and any hash (of either sign), it lies in [0, size - 1]; no power of
      two is needed for this. */
  function RouteIndex(h: Word, size: int): (idx: int)
    requires 1 <= size < 0x8000_0000
    ensures 0 <= idx <= size - 1
  {
    var mask, m := Bits(size - 1), Mix(h);
    Pow2Of32();
    assert mask == size - 1;
    AndAtMost(mask, m, 32);
    Signed(AndWord(mask, m))
  }

  /** When size is a power of two, masking with size - 1 takes the mixed hash modulo
      size, with the Euclidean remainder: the signed reading of the hash does not
      matter. */
  lemma MaskIsModulo(h: Word, size: int, k: nat)
    requires 1 <= size < 0x8000_0000 && size == Pow2(k)
    ensures RouteIndex(h, size) == Mix(h) % size
    ensures RouteIndex(h, size) == Signed(Mix(h)) % size
  {
    var m := Mix(h);
    assert RouteIndex(h, size) == Signed(AndWord(Bits(size - 1), m));
    assert Signed(AndWord(Bits(size - 1), m)) == m % size by { MaskedWordIsModulo(m, size, k); }
    assert Signed(m) % size == m % size by { SignedModPow2(m, size, k); }
  }

  lemma MaskedWordIsModulo(m: Word, size: int, k: nat)
    requires 1 <= size < 0x8000_0000 && size == Pow2(k)
    ensures Signed(AndWord(Bits(size - 1), m)) == m % size
  {
    Pow2Of32();
    if k > 32 {
      Pow2Monotone(32, k);
      assert false;
    }
    var a := AndWord(Bits(size - 1), m);
    assert Bits(size - 1) == size - 1;
    AndLowMask(m, k, 32);
    assert a == m % size;
    AndAtMost(size - 1, m, 32);
    assert a < 0x8000_0000;
  }

  lemma SignedModPow2(m: Word, size: int, k: nat)
    requires 1 <= size < 0x8000_0000 && size == Pow2(k)
    ensures Signed(m) % size == m % size
  {
    Pow2Of32();
    if k > 32 {
      Pow2Monotone(32, k);
      assert false;
    }
    if m >= 0x8000_0000 {
      Pow2Add(k, 32 - k);
      var j: int := Pow2(32 - k);
      assert WordModulus == size * j;
      assert Signed(m) == m + size * -j;
      ModAddMultiple(m, size, -j);
    }
  }

  /** A routing decision: 1-based database index, 0-based table index. */
  datatype Decision = Decision(dbIdx: int, tbIdx: int)

  /** `dbIdx = idx / tbCount + 1; tbIdx = idx - tbCount * (dbIdx - 1)`. The operands are
      non-negative, so Java's truncating division agrees with Dafny's. */
  function Split(idx: nat, tbCount: int): (d: Decision)
    requires tbCount >= 1
    ensures d.dbIdx >= 1 && 0 <= d.tbIdx < tbCount
    ensures (d.dbIdx - 1) * tbCount + d.tbIdx == idx
  {
    var dbIdx := idx / tbCount + 1;
    Decision(dbIdx, idx - tbCount * (dbIdx - 1))
  }

  lemma MulMonotone(a: int, b: int, c: int)
    requires a >= 0 && b <= c
    ensures a * b <= a * c
  {
    assert a * c - a * b == a * (c - b);
  }

  /** An index below dbCount * tbCount splits into a database index in [1, dbCount]
      and a table index in [0, tbCount) that reassemble into the index. */
  lemma SplitInRange(idx: nat, dbCount: int, tbCount: int)
    requires tbCount >= 1 && idx < dbCount * tbCount
    ensures 1 <= Split(idx, tbCount).dbIdx <= dbCount
    ensures 0 <= Split(idx, tbCount).tbIdx < tbCount
    ensures (Split(idx, tbCount).dbIdx - 1) * tbCount + Split(idx, tbCount).tbIdx == idx
  {
    var q := idx / tbCount;
    assert idx == tbCount * q + idx % tbCount;
    if q >= dbCount {
      MulMonotone(tbCount, dbCount, q);
      assert false;
    }
  }

  /** Split is onto: every (database, table) pair of the topology is the split of
      exactly the index (dbIdx - 1) * tbCount + tbIdx. */
  lemma SplitCoversEveryShard(dbIdx: int, tbIdx: int, dbCount: int, tbCount: int)
    requires 1 <= dbIdx <= dbCount && 0 <= tbIdx < tbCount
    ensures 0 <= (dbIdx - 1) * tbCount + tbIdx < dbCount * tbCount
    ensures Split((dbIdx - 1) * tbCount + tbIdx, tbCount) == Decision(dbIdx, tbIdx)
  {
    var idx := (dbIdx - 1) * tbCount + tbIdx;
    MulMonotone(tbCount, 0, dbIdx - 1);
    MulMonotone(tbCount, dbIdx, dbCount);
    assert idx == tbCount * (dbIdx - 1) + tbIdx;
    DivModUnique(idx, tbCount, dbIdx - 1, tbIdx);
  }

  /** The decision for a hash: the masked index of the hash, split into a database and
      a table. Database dbIdx - 1 holds the indexes (dbIdx - 1) * tbCount up to
      dbIdx * tbCount - 1, so the decision names exactly the shard at the masked index. */
  function Decide(h: Word, dbCount: int, tbCount: int): (d: Decision)
    requires ValidTopology(dbCount, tbCount)
    ensures 1 <= d.dbIdx <= dbCount && 0 <= d.tbIdx < tbCount
    ensures (d.dbIdx - 1) * tbCount + d.tbIdx == RouteIndex(h, dbCount * tbCount)
  {
    var size := dbCount * tbCount;
    var idx := RouteIndex(h, size);
    SplitInRange(idx, dbCount, tbCount);
    Split(idx, tbCount)
  }

  /** The decision doRouter takes for a key. */
  function Route(key: string, dbCount: int, tbCount: int): (d: Decision)
    requires ValidTopology(dbCount, tbCount)
    ensures 1 <= d.dbIdx <= dbCount && 0 <= d.tbIdx < tbCount
  {
    Decide(HashCode(key), dbCount, tbCount)
  }

  /** The context doRouter leaves: `%02d` of the database index, `%03d` of the table
      index. It depends on the key and the topology only. */
  function RoutedCells(key: string, dbCount: int, tbCount: int): (c: Cells)
    requires ValidTopology(dbCount, tbCount)
    ensures c.db.Some? && AllDigits(c.db.value)
    ensures DecimalValue(c.db.value) == Route(key, dbCount, tbCount).dbIdx
    ensures c.tb.Some? && AllDigits(c.tb.value)
    ensures DecimalValue(c.tb.value) == Route(key, dbCount, tbCount).tbIdx
  {
    var d := Route(key, dbCount, tbCount);
    DecisionKeysDecode(d.dbIdx, d.tbIdx, dbCount, tbCount);
    Cells(Some(ZeroPad(d.dbIdx, 2)), Some(ZeroPad(d.tbIdx, 3)))
  }

  /** Both keys doRouter writes are digit strings that read back as the decision's
      database index in [1, dbCount] and table index in [0, tbCount); with at most 99
      databases and 1000 tables they are exactly 2 and 3 characters long. */
  lemma RoutedCellsDecode(key: string, dbCount: int, tbCount: int)
    requires ValidTopology(dbCount, tbCount)
    ensures var c := RoutedCells(key, dbCount, tbCount);
      && c.db.Some? && c.tb.Some? && AllDigits(c.db.value) && AllDigits(c.tb.value)
      && DecimalValue(c.db.value) == Route(key, dbCount, tbCount).dbIdx
      && DecimalValue(c.tb.value) == Route(key, dbCount, tbCount).tbIdx
      && 1 <= DecimalValue(c.db.value) <= dbCount
      && 0 <= DecimalValue(c.tb.value) < tbCount
      && (dbCount <= 99 ==> |c.db.value| == 2)
      && (tbCount <= 1000 ==> |c.tb.value| == 3)
  {
    var d := Route(key, dbCount, tbCount);
    DecisionKeysDecode(d.dbIdx, d.tbIdx, dbCount, tbCount);
  }

  lemma DecisionKeysDecode(dbIdx: int, tbIdx: int, dbCount: int, tbCount: int)
    requires 1 <= dbIdx <= dbCount && 0 <= tbIdx < tbCount
    ensures AllDigits(ZeroPad(dbIdx, 2)) && DecimalValue(ZeroPad(dbIdx, 2)) == dbIdx
    ensures AllDigits(ZeroPad(tbIdx, 3)) && DecimalValue(ZeroPad(tbIdx, 3)) == tbIdx
    ensures dbCount <= 99 ==> |ZeroPad(dbIdx, 2)| == 2
    ensures tbCount <= 1000 ==> |ZeroPad(tbIdx, 3)| == 3
  {
    ZeroPadRoundTrip(dbIdx, 2);
    ZeroPadRoundTrip(tbIdx, 3);
    ZeroPadWidth(dbIdx);
    ZeroPadWidth(tbIdx);
  }

  // ---------------------------------------------------------------------------------
  // Manual routing

  /** setDBKey: `%02d` of the index when 1 <= dbIdx <= dbCount, otherwise of 1. The
      stored key reads back as the index in range and is "01" otherwise; the table key
      is untouched. */
  function ManualDbCells(c: Cells, dbIdx: int, dbCount: int): (r: Cells)
    ensures r.tb == c.tb && r.db.Some? && AllDigits(r.db.value)
    ensures DecimalValue(r.db.value) == (if 0 < dbIdx <= dbCount then dbIdx else 1)
    ensures !(0 < dbIdx <= dbCount) ==> r.db.value == "01"
  {
    if 0 < dbIdx <= dbCount then
      ZeroPadRoundTrip(dbIdx, 2);
      c.(db := Some(ZeroPad(dbIdx, 2)))
    else
      ZeroPadRoundTrip(1, 2);
      FallbackKeys();
      c.(db := Some(ZeroPad(1, 2)))
  }

  /** setTBKey as written: in range it stores `%03d` of the index as the table key; out
      of range it writes "000" into the DATABASE key and leaves the table key alone. */
  function ManualTbCells(c: Cells, tbIdx: int, tbCount: int): (r: Cells)
    ensures 0 <= tbIdx < tbCount ==>
      r.db == c.db && r.tb.Some? && AllDigits(r.tb.value) && DecimalValue(r.tb.value) == tbIdx
    ensures !(0 <= tbIdx < tbCount) ==> r.tb == c.tb && r.db == Some("000")
  {
    if 0 <= tbIdx < tbCount then
      ZeroPadRoundTrip(tbIdx, 3);
      c.(tb := Some(ZeroPad(tbIdx, 3)))
    else
      FallbackKeys();
      c.(db := Some(ZeroPad(0, 3)))
  }

  /** setTBKey as evidently intended: out of range it falls back to table 0. */
  function ManualTbCellsIntended(c: Cells, tbIdx: int, tbCount: int): Cells {
    if 0 <= tbIdx < tbCount then c.(tb := Some(ZeroPad(tbIdx, 3)))
    else c.(tb := Some(ZeroPad(0, 3)))
  }

  /** The as-written fallback: the table key keeps its old value (absent after a clear)
      and the database key becomes "000", which is not the `%02d` key of any database. */
  lemma ManualTableFallbackOverwritesDbKey(c: Cells, tbIdx: int, tbCount: int)
    requires !(0 <= tbIdx < tbCount)
    ensures ManualTbCells(c, tbIdx, tbCount).tb == c.tb
    ensures ManualTbCells(c, tbIdx, tbCount).db == Some("000")
    ensures forall i: nat :: 1 <= i ==> ZeroPad(i, 2) != "000"
  {
    FallbackKeys();
    forall i: nat | 1 <= i
      ensures ZeroPad(i, 2) != "000"
    {
      ZeroPadRoundTrip(i, 2);
      ZeroPadRoundTrip(0, 3);
    }
  }

  /** The intended setTBKey leaves the database key alone and always stores a table key
      that reads back as an index in [0, tbCount): the given one when in range, else 0. */
  lemma IntendedManualTableKeyInRange(c: Cells, tbIdx: int, tbCount: int)
    requires tbCount >= 1
    ensures var r := ManualTbCellsIntended(c, tbIdx, tbCount);
      && r.db == c.db && r.tb.Some? && AllDigits(r.tb.value)
      && DecimalValue(r.tb.value) == (if 0 <= tbIdx < tbCount then tbIdx else 0)
      && 0 <= DecimalValue(r.tb.value) < tbCount
  {
    if 0 <= tbIdx < tbCount {
      ZeroPadRoundTrip(tbIdx, 3);
    } else {
      ZeroPadRoundTrip(0, 3);
    }
  }

  // ---------------------------------------------------------------------------------
  // The strategy object

  class DBRouterStrategyHashCode {
    const config: DBRouterConfig
    /** The routing context (a static holder in the source). */
    const ctx: DBContextHolder

    constructor (config: DBRouterConfig, ctx: DBContextHolder)
      ensures this.config == config && this.ctx == ctx
    {
      this.config := config;
      this.ctx := ctx;
    }

    /** Hash routing. A null key fails on hashCode before any cell is written. */
    method DoRouter(dbKeyAttr: JString) returns (c: Completion)
      requires dbKeyAttr.Some? ==> ValidTopology(config.GetDbCount(), config.GetTbCount())
      modifies ctx
      ensures dbKeyAttr.None? ==>
        c == Raised(NullPointerException) && ctx.GetCells() == old(ctx.GetCells())
      ensures dbKeyAttr.Some? ==>
        c == Completed
        && ctx.GetCells() == RoutedCells(dbKeyAttr.value, config.GetDbCount(), config.GetTbCount())
    {
      match dbKeyAttr {
        case None =>
          c := Raised(NullPointerException);
        case Some(key) =>
          var d := Route(key, config.dbCount, config.tbCount);
          ctx.SetDBKey(Some(ZeroPad(d.dbIdx, 2)));
          ctx.SetTBKey(Some(ZeroPad(d.tbIdx, 3)));
          c := Completed;
      }
    }

    method SetDBKey(dbIdx: Int32)
      modifies ctx`dbKey
      ensures ctx.GetCells() == ManualDbCells(old(ctx.GetCells()), dbIdx, config.GetDbCount())
    {
      if dbIdx > 0 && dbIdx <= DbCount() {
        ctx.SetDBKey(Some(ZeroPad(dbIdx, 2)));
      } else {
        ctx.SetDBKey(Some(ZeroPad(1, 2)));
      }
    }

    /** setTBKey as the source has it (see ManualTbCells). */
    method SetTBKey(tbIdx: Int32)
      modifies ctx
      ensures ctx.GetCells() == ManualTbCells(old(ctx.GetCells()), tbIdx, config.GetTbCount())
    {
      if tbIdx >= 0 && tbIdx < TbCount() {
        ctx.SetTBKey(Some(ZeroPad(tbIdx, 3)));
      } else {
        ctx.SetDBKey(Some(ZeroPad(0, 3)));
      }
    }

    /** setTBKey with the fallback written to the table key. */
    method SetTBKeyIntended(tbIdx: Int32)
      modifies ctx`tbKey
      ensures ctx.GetCells() == ManualTbCellsIntended(old(ctx.GetCells()), tbIdx, config.GetTbCount())
    {
      if tbIdx >= 0 && tbIdx < TbCount() {
        ctx.SetTBKey(Some(ZeroPad(tbIdx, 3)));
      } else {
        ctx.SetTBKey(Some(ZeroPad(0, 3)));
      }
    }

    function GetDBKey(): (r: JString)
      reads ctx`dbKey
      ensures r == ctx.GetDBKey()
    {
      ctx.dbKey
    }

    function GetTBKey(): (r: JString)
      reads ctx`tbKey
      ensures r == ctx.GetTBKey()
    {
      ctx.tbKey
    }

    function DbCount(): (r: Int32)
      reads config`dbCount
      ensures r == config.GetDbCount()
    {
      config.dbCount
    }

    function TbCount(): (r: Int32)
      reads config`tbCount
      ensures r == config.GetTbCount()
    {
      config.tbCount
    }

    /** Removes both cells. */
    method Clear()
      modifies ctx
      ensures ctx.GetCells() == Absent
      ensures GetDBKey() == None && GetTBKey() == None
    {
      ctx.ClearDBKey();
      ctx.ClearTBKey();
    }
  }
}
