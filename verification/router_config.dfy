/** DBRouterConfig: the shard topology record (database count, table count per
    database, default routing-key name) with its constructors, getters and setters. */
module RouterConfig {
  import opened JavaLang

  class DBRouterConfig {
    var dbCount: Int32
    var tbCount: Int32
    var routerKey: JString

    /** The no-argument constructor leaves Java's field defaults. */
    constructor Empty()
      ensures GetDbCount() == 0 && GetTbCount() == 0 && GetRouterKey() == None
    {
      dbCount := 0;
      tbCount := 0;
      routerKey := None;
    }

    constructor (dbCount: Int32, tbCount: Int32, routerKey: JString)
      ensures GetDbCount() == dbCount && GetTbCount() == tbCount && GetRouterKey() == routerKey
    {
      this.dbCount := dbCount;
      this.tbCount := tbCount;
      this.routerKey := routerKey;
    }

    function GetDbCount(): Int32
      reads this`dbCount
    {
      dbCount
    }

    function GetTbCount(): Int32
      reads this`tbCount
    {
      tbCount
    }

    function GetRouterKey(): JString
      reads this`routerKey
    {
      routerKey
    }

    method SetDbCount(dbCount: Int32)
      modifies this`dbCount
      ensures GetDbCount() == dbCount
      ensures GetTbCount() == old(GetTbCount()) && GetRouterKey() == old(GetRouterKey())
    {
      this.dbCount := dbCount;
    }

    method SetTbCount(tbCount: Int32)
      modifies this`tbCount
      ensures GetTbCount() == tbCount
      ensures GetDbCount() == old(GetDbCount()) && GetRouterKey() == old(GetRouterKey())
    {
      this.tbCount := tbCount;
    }

    method SetRouterKey(routerKey: JString)
      modifies this`routerKey
      ensures GetRouterKey() == routerKey
      ensures GetDbCount() == old(GetDbCount()) && GetTbCount() == old(GetTbCount())
    {
      this.routerKey := routerKey;
    }
  }

  /** The topologies the hash strategy is meant for: at least one database and one table
      per database, and a shard count dbCount * tbCount that is itself a Java int. */
  predicate ValidTopology(dbCount: int, tbCount: int) {
    1 <= dbCount && 1 <= tbCount && 1 <= dbCount * tbCount < 0x8000_0000
  }
}
