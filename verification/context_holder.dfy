/** DBContextHolder: the routing context, two optional string cells (the formatted
    database key and table key) that are set, read and removed independently. The source
    keeps each cell in a ThreadLocal; this is one thread's view of them. */
module ContextHolder {
  import opened JavaLang

  /** The abstract value of the context: both cells. */
  datatype Cells = Cells(db: JString, tb: JString)

  const Absent := Cells(None, None)

  /** The six static operations of the holder that change a cell. */
  datatype Call = SetDB(dbKey: JString) | SetTB(tbKey: JString) | ClearDB | ClearTB

  /** The context after one call. ThreadLocal.set(null) is observed like remove(). */
  function Step(c: Cells, call: Call): Cells {
    match call
    case SetDB(v) => c.(db := v)
    case SetTB(v) => c.(tb := v)
    case ClearDB => c.(db := None)
    case ClearTB => c.(tb := None)
  }

  /** The context after a series of calls, applied left to right. */
  function Run(c: Cells, calls: seq<Call>): Cells
    decreases |calls|
  {
    if calls == [] then c else Run(Step(c, calls[0]), calls[1..])
  }

  /** What getDBKey reads after the calls: the value of the latest setDBKey or
      clearDBKey among them, or the initial value when there is none. */
  function LastDbWrite(calls: seq<Call>, initial: JString): JString
    decreases |calls|
  {
    if calls == [] then initial
    else match calls[|calls| - 1]
      case SetDB(v) => v
      case ClearDB => None
      case _ => LastDbWrite(calls[..|calls| - 1], initial)
  }

  /** What getTBKey reads after the calls. */
  function LastTbWrite(calls: seq<Call>, initial: JString): JString
    decreases |calls|
  {
    if calls == [] then initial
    else match calls[|calls| - 1]
      case SetTB(v) => v
      case ClearTB => None
      case _ => LastTbWrite(calls[..|calls| - 1], initial)
  }

  lemma {:induction false} RunSnoc(c: Cells, calls: seq<Call>, last: Call)
    ensures Run(c, calls + [last]) == Step(Run(c, calls), last)
    decreases |calls|
  {
    if calls != [] {
      assert (calls + [last])[1..] == calls[1..] + [last];
      RunSnoc(Step(c, calls[0]), calls[1..], last);
    }
  }

  /** Last write wins, cell by cell: each getter returns the value of the latest call on
      its own cell, and calls on the other cell never change it. */
  lemma {:induction false} LastWriteWins(c: Cells, calls: seq<Call>)
    ensures Run(c, calls).db == LastDbWrite(calls, c.db)
    ensures Run(c, calls).tb == LastTbWrite(calls, c.tb)
    decreases |calls|
  {
    if calls != [] {
      var init := calls[..|calls| - 1];
      assert calls == init + [calls[|calls| - 1]];
      RunSnoc(c, init, calls[|calls| - 1]);
      LastWriteWins(c, init);
    }
  }

  class DBContextHolder {
    var dbKey: JString
    var tbKey: JString

    /** Before any set, both cells are absent. */
    constructor ()
      ensures GetCells() == Absent
    {
      dbKey := None;
      tbKey := None;
    }

    function GetCells(): Cells
      reads this
    {
      Cells(dbKey, tbKey)
    }

    function GetDBKey(): (r: JString)
      reads this`dbKey
      ensures r == GetCells().db
    {
      dbKey
    }

    function GetTBKey(): (r: JString)
      reads this`tbKey
      ensures r == GetCells().tb
    {
      tbKey
    }

    method SetDBKey(dbKeyIdx: JString)
      modifies this`dbKey
      ensures GetCells() == Step(old(GetCells()), SetDB(dbKeyIdx))
      ensures GetDBKey() == dbKeyIdx
    {
      dbKey := dbKeyIdx;
    }

    method SetTBKey(tbKeyIdx: JString)
      modifies this`tbKey
      ensures GetCells() == Step(old(GetCells()), SetTB(tbKeyIdx))
      ensures GetTBKey() == tbKeyIdx
    {
      tbKey := tbKeyIdx;
    }

    method ClearDBKey()
      modifies this`dbKey
      ensures GetCells() == Step(old(GetCells()), ClearDB)
      ensures GetDBKey() == None
    {
      dbKey := None;
    }

    method ClearTBKey()
      modifies this`tbKey
      ensures GetCells() == Step(old(GetCells()), ClearTB)
      ensures GetTBKey() == None
    {
      tbKey := None;
    }
  }
}
