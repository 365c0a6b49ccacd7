/** DynamicDataSource.determineCurrentLookupKey: the name of the connection source for
    the current call, "db" followed by the database key held in the routing context. */
module DynamicDataSource {
  import opened JavaLang
  import opened Decimal
  import opened RouterConfig
  import opened ContextHolder
  import opened HashStrategy

  /** `"db" + dbKey`, with Java's "null" for an absent key. */
  function LookupKey(dbKey: JString): (r: string)
    ensures |r| >= 2 && r[..2] == "db"
    ensures r[2..] == Str(dbKey)
  {
    "db" + Str(dbKey)
  }

  /** The key the routing data source asks for; it reads the database cell and nothing
      else. */
  function DetermineCurrentLookupKey(ctx: DBContextHolder): (r: string)
    reads ctx`dbKey
    ensures r == LookupKey(ctx.GetDBKey())
  {
    "db" + Str(ctx.dbKey)
  }

  /** Two database keys give the same lookup key exactly when they print the same, so an
      absent key and the text "null" collide on "dbnull" and nothing else does. */
  lemma LookupKeyCollisions(a: JString, b: JString)
    ensures LookupKey(a) == LookupKey(b) <==> Str(a) == Str(b)
    ensures LookupKey(None) == "dbnull"
  {
    if LookupKey(a) == LookupKey(b) {
      assert Str(a) == LookupKey(a)[2..];
    }
  }

  /** After hash routing, the lookup key is "db" followed by the `%02d` database index;
      different database indexes never share a lookup key. */
  lemma RoutedLookupKey(key: string, dbCount: int, tbCount: int)
    requires ValidTopology(dbCount, tbCount)
    ensures LookupKey(RoutedCells(key, dbCount, tbCount).db)
            == "db" + ZeroPad(Route(key, dbCount, tbCount).dbIdx, 2)
    ensures Route(key, dbCount, tbCount).dbIdx == 1 ==>
            LookupKey(RoutedCells(key, dbCount, tbCount).db) == "db01"
  {
    var d := Route(key, dbCount, tbCount);
    assert RoutedCells(key, dbCount, tbCount).db == Some(ZeroPad(d.dbIdx, 2));
    FallbackKeys();
  }

  /** Distinct database indexes select distinct connection sources. */
  lemma LookupKeysDistinct(i: nat, j: nat)
    requires LookupKey(Some(ZeroPad(i, 2))) == LookupKey(Some(ZeroPad(j, 2)))
    ensures i == j
  {
    LookupKeyCollisions(Some(ZeroPad(i, 2)), Some(ZeroPad(j, 2)));
    ZeroPadInjective(i, j, 2);
  }

  /** After the as-written setTBKey fallback the data source is asked for "db000", the
      name of no database index. */
  lemma TableFallbackLookupKey(c: Cells, tbIdx: int, tbCount: int, i: nat)
    requires !(0 <= tbIdx < tbCount)
    ensures LookupKey(ManualTbCells(c, tbIdx, tbCount).db) == "db000"
    ensures 1 <= i ==> LookupKey(Some(ZeroPad(i, 2))) != "db000"
  {
    ManualTableFallbackOverwritesDbKey(c, tbIdx, tbCount);
    if 1 <= i && LookupKey(Some(ZeroPad(i, 2))) == "db000" {
      LookupKeyCollisions(Some(ZeroPad(i, 2)), Some("000"));
    }
  }
}
