# dbs-router: routing and rewrite core, in Dafny

This project models the core of a Spring Boot starter that shards a MyBatis application over
several databases, each holding several copies of a table.

- **Configuration.** `DBRouterConfig` holds the topology: the number of databases, the
  number of tables per database, and the name of the default routing attribute.
- **Hash routing.** For every method marked for routing, the advice `DBRouterJoinPoint`
  resolves which attribute to route on and reads that attribute's value from the call's
  arguments. `DBRouterStrategyHashCode` then hashes the value (`String.hashCode`,
  perturbed by `h ^ (h >>> 16)`) and masks the hash with `dbCount * tbCount - 1`. It
  splits the resulting index into a 1-based database index and a 0-based table index.
- **Routing context.** The strategy writes both indexes, zero-padded (`%02d`, `%03d`),
  into the routing context `DBContextHolder`.
- **Data source.** `DynamicDataSource` names the connection source `"db" + dbKey`.
- **Table rewrite.** For table-split mappers, `DynamicMybatisPlugin` finds the first
  `(from|into|update)\s+\w+` in the prepared SQL. It replaces every match of that pattern
  with the first match's text, "_" and the table key.
- **Clean-up.** When the call has proceeded, the advice clears the context.

## How the model is organised

| Dafny module (file) | what it models |
|---|---|
| `JavaLang` (java_lang.dfy) | helpers for the Java library: a nullable `String` as `Option<string>`, `"..." + null`, `Character.isWhitespace`, `StringUtils.isEmpty`/`isNotBlank`, `String.trim`, exceptions and call outcomes |
| `Decimal` (decimal.dfy) | `String.format("%0<w>d", n)` for non-negative `n`, with a round trip back to the number |
| `Bits32` (bits32.dfy) | Java `int` bit patterns as integers in [0, 2^32): `&`, `^` and `>>>` bit by bit, and the two's-complement reading |
| `RouterConfig` (router_config.dfy) | `DBRouterConfig` as a class with three fields |
| `ContextHolder` (context_holder.dfy) | `DBContextHolder` as a class with two nullable string cells |
| `HashStrategy` (hash_strategy.dfy) | `DBRouterStrategyHashCode`: the hash, the index arithmetic, hash routing and manual routing |
| `DynamicDataSource` (dynamic_data_source.dfy) | `determineCurrentLookupKey` |
| `DynamicMybatisPlugin` (mybatis_plugin.dfy) | the fixed pattern, `Matcher.find`/`replaceAll` over it, and `intercept` |
| `RouterJoinPoint` (join_point.dfy) | key resolution, `getAttrValue` and the advice `doRouter` |

Operations that change state take the form they have in the source:
- the configuration and the context are classes whose methods reassign fields;
- `getAttrValue` is a loop with an early exit;
- `intercept` overwrites the statement's `sql` field.

Each method is proved against a function that states what it computes. The properties of
those functions are proved as lemmas.

Points where the behaviour of the code is easy to misread:
- **Power of two.** The comments at
  `src/main/java/cn/twinkle/middleware/dbs/router/strategy/impl/DBRouterStrategyHashCode.java:32`
  and `:36-37` say that the database and table counts are powers of two, so that the
  mask acts as a modulo. Nothing in the code checks this.
  - The bounds (`HashStrategy.RouteIndex`, `HashStrategy.Decide`) hold for any positive
    counts whose product fits in an `int`.
  - Only "mask equals modulo" needs a power of two (`HashStrategy.MaskIsModulo`).
  - That modulo is the Euclidean one: Java's `%` truncates, so for a negative mixed hash
    it would give a negative value.
- **Missing attribute.** When no lookup finds a non-blank value, `getAttrValue` returns
  the latest successful lookup's value, or null. It raises no error of its own. A null
  value then fails in `doRouter` on `hashCode` (`RouterJoinPoint.DBRouterJoinPoint.DoRouter`).
- **Multi-table statements.** The comment at
  `src/main/java/cn/twinkle/middleware/dbs/router/dynamic/DynamicMybatisPlugin.java:42-43`
  says only one table name can be changed. In fact `replaceAll` rewrites every match, and
  every one of them with the FIRST match's text (`DynamicMybatisPlugin.RewriteSecondMatch`).
  The table name also includes the keyword and its whitespace.
- **Statement without a table.** The code has only an `assert`:
  - with assertions enabled it throws `AssertionError`;
  - with assertions disabled, `replaceAll` over zero matches leaves the statement as it is.

## Model

| member | source | states |
|---|---|---|
| `RouterConfig.DBRouterConfig.Empty` | src/main/java/cn/twinkle/middleware/dbs/router/DBRouterConfig.java:23-24 | the no-argument constructor leaves 0 databases, 0 tables and a null router key |
| `RouterConfig.DBRouterConfig.constructor` | src/main/java/cn/twinkle/middleware/dbs/router/DBRouterConfig.java:26-30 | the three-argument constructor stores the three values exactly; the getters return them |
| `RouterConfig.DBRouterConfig.GetDbCount` | src/main/java/cn/twinkle/middleware/dbs/router/DBRouterConfig.java:32-34 | returns the stored database count; its frame is that one field |
| `RouterConfig.DBRouterConfig.GetTbCount` | src/main/java/cn/twinkle/middleware/dbs/router/DBRouterConfig.java:40-42 | returns the stored table count; its frame is that one field |
| `RouterConfig.DBRouterConfig.GetRouterKey` | src/main/java/cn/twinkle/middleware/dbs/router/DBRouterConfig.java:48-50 | returns the stored router key, possibly null; its frame is that one field |
| `RouterConfig.DBRouterConfig.SetDbCount` | src/main/java/cn/twinkle/middleware/dbs/router/DBRouterConfig.java:36-38 | the getter returns the value set; the other two fields are unchanged |
| `RouterConfig.DBRouterConfig.SetTbCount` | src/main/java/cn/twinkle/middleware/dbs/router/DBRouterConfig.java:44-46 | the getter returns the value set; the other two fields are unchanged |
| `RouterConfig.DBRouterConfig.SetRouterKey` | src/main/java/cn/twinkle/middleware/dbs/router/DBRouterConfig.java:52-54 | the getter returns the value set; the other two fields are unchanged |
| `ContextHolder.DBContextHolder.constructor` | src/main/java/cn/twinkle/middleware/dbs/router/DBContextHolder.java:13-14 | both cells are absent before any set |
| `ContextHolder.DBContextHolder.SetDBKey` | src/main/java/cn/twinkle/middleware/dbs/router/DBContextHolder.java:16-18 | the database cell holds the new value; the table cell is unchanged (it is outside the method's frame) |
| `ContextHolder.DBContextHolder.GetDBKey` | src/main/java/cn/twinkle/middleware/dbs/router/DBContextHolder.java:20-22 | reads the database cell of the context, and only that cell |
| `ContextHolder.DBContextHolder.SetTBKey` | src/main/java/cn/twinkle/middleware/dbs/router/DBContextHolder.java:24-26 | the table cell holds the new value; the database cell is unchanged |
| `ContextHolder.DBContextHolder.GetTBKey` | src/main/java/cn/twinkle/middleware/dbs/router/DBContextHolder.java:28-30 | reads the table cell of the context, and only that cell |
| `ContextHolder.DBContextHolder.ClearDBKey` | src/main/java/cn/twinkle/middleware/dbs/router/DBContextHolder.java:32-34 | afterwards getDBKey is absent; the table cell is unchanged |
| `ContextHolder.DBContextHolder.ClearTBKey` | src/main/java/cn/twinkle/middleware/dbs/router/DBContextHolder.java:36-38 | afterwards getTBKey is absent; the database cell is unchanged |
| `ContextHolder.LastWriteWins` | src/main/java/cn/twinkle/middleware/dbs/router/DBContextHolder.java:16-30 | after any series of sets and clears, each getter returns the value of the latest call on its own cell (absent for a clear), and calls on the other cell never affect it |
| `Decimal.ZeroPadRoundTrip` | src/main/java/cn/twinkle/middleware/dbs/router/strategy/impl/DBRouterStrategyHashCode.java:47-48 | `%0<w>d` of n >= 0 has length max(w, number of digits of n), consists of digits only, and reads back as n |
| `Decimal.ZeroPadInjective` | src/main/java/cn/twinkle/middleware/dbs/router/strategy/impl/DBRouterStrategyHashCode.java:47-48 | different numbers are never padded to the same key |
| `Decimal.FallbackKeys` | src/main/java/cn/twinkle/middleware/dbs/router/strategy/impl/DBRouterStrategyHashCode.java:59-70 | the fallback keys of manual routing are "01" and "000" |
| `HashStrategy.HashIsPolynomial` | src/main/java/cn/twinkle/middleware/dbs/router/strategy/impl/DBRouterStrategyHashCode.java:39 | the wrapping loop of String.hashCode over the UTF-16 code units equals the polynomial s[0]*31^(n-1) + ... + s[n-1] taken modulo 2^32 |
| `HashStrategy.HashCode` | src/main/java/cn/twinkle/middleware/dbs/router/strategy/impl/DBRouterStrategyHashCode.java:39 | the hash of a key is the documented polynomial over its UTF-16 code units, taken modulo 2^32 |
| `HashStrategy.Mix` | src/main/java/cn/twinkle/middleware/dbs/router/strategy/impl/DBRouterStrategyHashCode.java:39 | `h ^ (h >>> 16)` keeps the high 16 bits of h, and xoring them back in gives h again |
| `HashStrategy.MixIsInvolution` | src/main/java/cn/twinkle/middleware/dbs/router/strategy/impl/DBRouterStrategyHashCode.java:39 | mixing a mixed hash gives the original hash back, so distinct hashes stay distinct after mixing |
| `HashStrategy.RouteIndex` | src/main/java/cn/twinkle/middleware/dbs/router/strategy/impl/DBRouterStrategyHashCode.java:33-39 | for any hash, of either sign, and any size in [1, 2^31), `(size-1) & (h ^ (h >>> 16))` lies in [0, size-1]; no power of two is needed |
| `HashStrategy.MaskIsModulo` | src/main/java/cn/twinkle/middleware/dbs/router/strategy/impl/DBRouterStrategyHashCode.java:36-39 | when size = 2^k, the masked index equals the mixed hash modulo size, read either unsigned or as a signed int (Euclidean remainder) |
| `HashStrategy.Split` | src/main/java/cn/twinkle/middleware/dbs/router/strategy/impl/DBRouterStrategyHashCode.java:42-44 | the split of an index gives dbIdx >= 1 and tbIdx in [0, tbCount), and (dbIdx-1)*tbCount + tbIdx is the index again |
| `HashStrategy.SplitInRange` | src/main/java/cn/twinkle/middleware/dbs/router/strategy/impl/DBRouterStrategyHashCode.java:42-44 | an index below dbCount*tbCount splits into dbIdx in [1, dbCount] and tbIdx in [0, tbCount) with (dbIdx-1)*tbCount + tbIdx == idx |
| `HashStrategy.SplitCoversEveryShard` | src/main/java/cn/twinkle/middleware/dbs/router/strategy/impl/DBRouterStrategyHashCode.java:42-44 | the split is onto: every (database, table) pair of the topology is the split of exactly the index (dbIdx-1)*tbCount + tbIdx |
| `HashStrategy.Decide` | src/main/java/cn/twinkle/middleware/dbs/router/strategy/impl/DBRouterStrategyHashCode.java:33-44 | the decision for a hash has dbIdx in [1, dbCount] and tbIdx in [0, tbCount), and (dbIdx-1)*tbCount + tbIdx is the masked index of the hash: it names exactly the shard at that index |
| `HashStrategy.Route` | src/main/java/cn/twinkle/middleware/dbs/router/strategy/impl/DBRouterStrategyHashCode.java:31-44 | the decision for a key, from the key's String.hashCode, has dbIdx in [1, dbCount] and tbIdx in [0, tbCount) |
| `HashStrategy.RoutedCells` | src/main/java/cn/twinkle/middleware/dbs/router/strategy/impl/DBRouterStrategyHashCode.java:47-48 | both cells written by hash routing are present, are digit strings, and read back as the decision's database and table indexes |
| `HashStrategy.RoutedCellsDecode` | src/main/java/cn/twinkle/middleware/dbs/router/strategy/impl/DBRouterStrategyHashCode.java:47-48 | both keys written are digit strings that read back as the decision's indexes, within the topology; with at most 99 databases and 1000 tables they are exactly 2 and 3 characters long |
| `HashStrategy.ManualDbCells` | src/main/java/cn/twinkle/middleware/dbs/router/strategy/impl/DBRouterStrategyHashCode.java:56-60 | manual database routing stores a key that reads back as the index when 1 <= dbIdx <= dbCount and is "01" otherwise; the table key is untouched |
| `HashStrategy.ManualTbCells` | src/main/java/cn/twinkle/middleware/dbs/router/strategy/impl/DBRouterStrategyHashCode.java:67-71 | as written: in range the table key reads back as the index and the database key is untouched; out of range the table key is untouched and the database key becomes "000" |
| `HashStrategy.ManualTableFallbackOverwritesDbKey` | src/main/java/cn/twinkle/middleware/dbs/router/strategy/impl/DBRouterStrategyHashCode.java:64-72 | as written, an out-of-range table index leaves the table key as it was and sets the database key to "000", which is the `%02d` key of no database |
| `HashStrategy.IntendedManualTableKeyInRange` | src/main/java/cn/twinkle/middleware/dbs/router/strategy/impl/DBRouterStrategyHashCode.java:64-72 | the corrected manual table routing leaves the database key alone and always stores a table key that reads back as an index in [0, tbCount): the given one, or 0 |
| `HashStrategy.DBRouterStrategyHashCode.constructor` | src/main/java/cn/twinkle/middleware/dbs/router/strategy/impl/DBRouterStrategyHashCode.java:22-24 | keeps the configuration it is given |
| `HashStrategy.DBRouterStrategyHashCode.DoRouter` | src/main/java/cn/twinkle/middleware/dbs/router/strategy/impl/DBRouterStrategyHashCode.java:31-50 | a null value throws NullPointerException with the context unchanged; otherwise the context becomes the `%02d`/`%03d` keys of the decision. That decision depends only on the value and the topology, so routing the same value twice gives the same context |
| `HashStrategy.DBRouterStrategyHashCode.SetDBKey` | src/main/java/cn/twinkle/middleware/dbs/router/strategy/impl/DBRouterStrategyHashCode.java:53-61 | the context becomes the one manual database routing specifies; only the database cell is in the frame |
| `HashStrategy.DBRouterStrategyHashCode.SetTBKey` | src/main/java/cn/twinkle/middleware/dbs/router/strategy/impl/DBRouterStrategyHashCode.java:64-72 | as written: the table key in range, the database key "000" out of range |
| `HashStrategy.DBRouterStrategyHashCode.SetTBKeyIntended` | src/main/java/cn/twinkle/middleware/dbs/router/strategy/impl/DBRouterStrategyHashCode.java:64-72 | corrected: only the table cell changes, to the index's key or "000" |
| `HashStrategy.DBRouterStrategyHashCode.GetDBKey` | src/main/java/cn/twinkle/middleware/dbs/router/strategy/impl/DBRouterStrategyHashCode.java:75-77 | reads through to the context's database cell |
| `HashStrategy.DBRouterStrategyHashCode.GetTBKey` | src/main/java/cn/twinkle/middleware/dbs/router/strategy/impl/DBRouterStrategyHashCode.java:80-82 | reads through to the context's table cell |
| `HashStrategy.DBRouterStrategyHashCode.DbCount` | src/main/java/cn/twinkle/middleware/dbs/router/strategy/impl/DBRouterStrategyHashCode.java:85-87 | exactly the configuration's database count |
| `HashStrategy.DBRouterStrategyHashCode.TbCount` | src/main/java/cn/twinkle/middleware/dbs/router/strategy/impl/DBRouterStrategyHashCode.java:90-92 | exactly the configuration's table count |
| `HashStrategy.DBRouterStrategyHashCode.Clear` | src/main/java/cn/twinkle/middleware/dbs/router/strategy/impl/DBRouterStrategyHashCode.java:95-98 | afterwards both getters return absent |
| `DynamicDataSource.LookupKey` | src/main/java/cn/twinkle/middleware/dbs/router/dynamic/DynamicDataSource.java:25 | the lookup key starts with "db" and continues with the database key's text ("null" when absent) |
| `DynamicDataSource.DetermineCurrentLookupKey` | src/main/java/cn/twinkle/middleware/dbs/router/dynamic/DynamicDataSource.java:24-26 | the key is computed from the context's database cell, and that cell is all it reads |
| `DynamicDataSource.LookupKeyCollisions` | src/main/java/cn/twinkle/middleware/dbs/router/dynamic/DynamicDataSource.java:25 | two database keys give the same lookup key iff they print the same; an absent key gives "dbnull" |
| `DynamicDataSource.RoutedLookupKey` | src/main/java/cn/twinkle/middleware/dbs/router/dynamic/DynamicDataSource.java:25 | after hash routing, the lookup key is "db" + `%02d` of the database index, "db01" for index 1 |
| `DynamicDataSource.LookupKeysDistinct` | src/main/java/cn/twinkle/middleware/dbs/router/dynamic/DynamicDataSource.java:25 | distinct database indexes select distinct connection sources |
| `DynamicDataSource.TableFallbackLookupKey` | src/main/java/cn/twinkle/middleware/dbs/router/dynamic/DynamicDataSource.java:25 | after the as-written table fallback, the data source is asked for "db000", the lookup key of no database index |
| `JavaLang.Trim` | src/main/java/cn/twinkle/middleware/dbs/router/dynamic/DynamicMybatisPlugin.java:80 | trim never lengthens a string, and returns it unchanged when both of its ends are above ' ' |
| `DynamicMybatisPlugin.KeywordLength` | src/main/java/cn/twinkle/middleware/dbs/router/dynamic/DynamicMybatisPlugin.java:45 | a keyword found at a position is 4 (from, into) or 6 (update) characters long and fits in the text |
| `DynamicMybatisPlugin.SkipSpaces` | src/main/java/cn/twinkle/middleware/dbs/router/dynamic/DynamicMybatisPlugin.java:45 | `[\s]{1,}` is greedy: it consumes the maximal run of the six ASCII whitespace characters |
| `DynamicMybatisPlugin.SkipWord` | src/main/java/cn/twinkle/middleware/dbs/router/dynamic/DynamicMybatisPlugin.java:45 | `\w{1,}` is greedy: it consumes the maximal run of [A-Za-z0-9_] |
| `DynamicMybatisPlugin.MatchAt` | src/main/java/cn/twinkle/middleware/dbs/router/dynamic/DynamicMybatisPlugin.java:45 | a match is non-empty and is never followed by a word character |
| `DynamicMybatisPlugin.MatchIsLongestSplit` | src/main/java/cn/twinkle/middleware/dbs/router/dynamic/DynamicMybatisPlugin.java:45 | the match at a position is the longest text there in the pattern's language (case-insensitive keyword, whitespace, word); there is no match iff the language admits nothing there |
| `DynamicMybatisPlugin.MatchShape` | src/main/java/cn/twinkle/middleware/dbs/router/dynamic/DynamicMybatisPlugin.java:45 | a match begins with a keyword letter and ends with a word character |
| `DynamicMybatisPlugin.FindFrom` | src/main/java/cn/twinkle/middleware/dbs/router/dynamic/DynamicMybatisPlugin.java:77-81 | find returns the leftmost position with a match, together with that match's end; no position before it matches, and with no result no position matches |
| `DynamicMybatisPlugin.TableName` | src/main/java/cn/twinkle/middleware/dbs/router/dynamic/DynamicMybatisPlugin.java:77-81 | the table name is null iff nothing matches; otherwise it is the whole first match, keyword and whitespace included: trim removes nothing from it |
| `DynamicMybatisPlugin.ReplaceAllFrom` | src/main/java/cn/twinkle/middleware/dbs/router/dynamic/DynamicMybatisPlugin.java:84 | with no match the rest of the text is returned as it is; otherwise the text before the first match is kept and the replacement follows it |
| `DynamicMybatisPlugin.Rewrite` | src/main/java/cn/twinkle/middleware/dbs/router/dynamic/DynamicMybatisPlugin.java:77-84 | with no match the statement is left as it is; otherwise the text before the first match is kept |
| `DynamicMybatisPlugin.RewriteSingleMatch` | src/main/java/cn/twinkle/middleware/dbs/router/dynamic/DynamicMybatisPlugin.java:79-84 | with exactly one match the result is prefix + match + "_" + table key + suffix, one character plus the table key's length longer |
| `DynamicMybatisPlugin.RewriteFirstMatch` | src/main/java/cn/twinkle/middleware/dbs/router/dynamic/DynamicMybatisPlugin.java:84 | the text before the first match is kept, the match is followed by "_" and the table key, and the rest is rewritten with the same replacement |
| `DynamicMybatisPlugin.RewriteSecondMatch` | src/main/java/cn/twinkle/middleware/dbs/router/dynamic/DynamicMybatisPlugin.java:84 | a second match is replaced with the first match's text plus the suffix, not its own; the text between the matches is kept |
| `DynamicMybatisPlugin.RewriteKeepsFirstMatch` | src/main/java/cn/twinkle/middleware/dbs/router/dynamic/DynamicMybatisPlugin.java:84 | the rewritten statement still holds the first match in its place, followed by "_" |
| `DynamicMybatisPlugin.RewriteChanges` | src/main/java/cn/twinkle/middleware/dbs/router/dynamic/DynamicMybatisPlugin.java:84 | a statement with a match is never left unchanged by the rewrite |
| `DynamicMybatisPlugin.FindsAnyMatch` | src/main/java/cn/twinkle/middleware/dbs/router/dynamic/DynamicMybatisPlugin.java:77-79 | a statement with a match at any position has a first match |
| `DynamicMybatisPlugin.RewriteStillMatches` | src/main/java/cn/twinkle/middleware/dbs/router/dynamic/DynamicMybatisPlugin.java:84 | a rewritten statement still has a match, at the place where the original's first match was |
| `DynamicMybatisPlugin.RewriteNotIdempotent` | src/main/java/cn/twinkle/middleware/dbs/router/dynamic/DynamicMybatisPlugin.java:84 | rewriting a rewritten statement changes it again: a second suffix is appended |
| `DynamicMybatisPlugin.Intercept` | src/main/java/cn/twinkle/middleware/dbs/router/dynamic/DynamicMybatisPlugin.java:53-94 | a mapper that is not table-split proceeds with its statement untouched; a statement without a match throws AssertionError when assertions are enabled; otherwise the statement is rewritten in place before proceeding |
| `RouterJoinPoint.ResolveKey` | src/main/java/cn/twinkle/middleware/dbs/router/DBRouterJoinPoint.java:55-61 | an error with the source's message iff the annotation key and the configured key are both empty; otherwise the annotation key when it is not blank, else the configured key |
| `RouterJoinPoint.ResolvedKeyEmptyOnlyWhenBlank` | src/main/java/cn/twinkle/middleware/dbs/router/DBRouterJoinPoint.java:57-61 | a resolved attribute name is empty iff the annotation key is whitespace only (not empty) and the configured key is empty |
| `RouterJoinPoint.BlankAnnotationKeyWithoutDefault` | src/main/java/cn/twinkle/middleware/dbs/router/DBRouterJoinPoint.java:57-61 | the annotation key " " with no configured key resolves to a null attribute name instead of the error |
| `RouterJoinPoint.FirstNonBlank` | src/main/java/cn/twinkle/middleware/dbs/router/DBRouterJoinPoint.java:107-119 | the position of the first lookup that found a non-blank value; no lookup before it did, and none at all when absent |
| `RouterJoinPoint.LastFoundIsFound` | src/main/java/cn/twinkle/middleware/dbs/router/DBRouterJoinPoint.java:107-119 | a value left by the loop without a non-blank find is the value of some successful lookup |
| `RouterJoinPoint.ExtractedNonBlankIff` | src/main/java/cn/twinkle/middleware/dbs/router/DBRouterJoinPoint.java:107-119 | the extracted value is non-blank iff some lookup found a non-blank value; with no successful lookup (zero arguments included) it is null |
| `RouterJoinPoint.AttrValue` | src/main/java/cn/twinkle/middleware/dbs/router/DBRouterJoinPoint.java:97-120 | a single String argument is the value; otherwise the value is non-blank iff some argument's lookup found a non-blank value, and null when every lookup failed |
| `RouterJoinPoint.GetAttrValue` | src/main/java/cn/twinkle/middleware/dbs/router/DBRouterJoinPoint.java:97-120 | a single String argument is returned with no lookup; otherwise the first non-blank lookup value, after exactly that many lookups, else the latest successful value or null, after one lookup per argument |
| `RouterJoinPoint.DBRouterJoinPoint.constructor` | src/main/java/cn/twinkle/middleware/dbs/router/DBRouterJoinPoint.java:32-35 | keeps the configuration and the strategy it is given |
| `RouterJoinPoint.DBRouterJoinPoint.DoRouter` | src/main/java/cn/twinkle/middleware/dbs/router/DBRouterJoinPoint.java:53-76 | a key error or a null attribute value throws before proceed and leaves the context as it was; otherwise the call proceeds under the routed context, its outcome is passed on, and the context is absent afterwards, whether the call returned or threw |

## Left out

- `ThreadLocal` isolation between threads: the context is one thread's view, two fields.
- `DataSourceAutoConfig` (bean wiring, property parsing, JDBC data sources, transaction template) is not part of this model.
- `AbstractRoutingDataSource` resolving the lookup key to a connection, and its default-source fallback, is library behaviour outside the model.
- `BeanUtils.getProperty` is a parameter: a function from argument and attribute name to a value or a failure. `jp.proceed()` and `invocation.proceed()` are parameters too: functions from the context or the statement text to an outcome.
- Reflection in `intercept`: reading the mapped-statement id, `Class.forName` and `getAnnotation` become the boolean `splitTable`. The `ClassNotFoundException` they can throw is not modelled. The reflective `Field` write becomes an assignment to `BoundSql.sql`.
- Logging (the `logger` calls in the advice, the strategy and the extraction loop) has no effect on the model.
- The general Java regex engine: only the one fixed pattern is modelled, as Java matches it without the UNICODE_CASE and UNICODE_CHARACTER_CLASS flags.
- `DynamicMybatisPlugin.Intercept`: requires a table key without `$` and `\`, which `replaceAll` would read as group references or escapes rather than take literally.
- `HashStrategy.DBRouterStrategyHashCode.DoRouter`: for a non-null value, requires `dbCount >= 1`, `tbCount >= 1` and a product below 2^31. The source checks none of this.
  - A zero table count would throw `ArithmeticException`.
  - Negative counts or an overflowing product would give negative or wrapped indexes.
  - Those paths are not modelled.
- `RouterJoinPoint.DBRouterJoinPoint.DoRouter`: requires the same topology condition, but only when the key resolves and the attribute value is not null, the one path that routes. The key error and the null value are modelled under any topology.
- `Decimal.ZeroPad`: models `%0<w>d` for non-negative numbers only; the router formats no negative number. It also assumes that the JVM's default format locale writes ASCII digits. `String.format` without a locale uses the locale's zero digit, so under a locale with other digits (Arabic-Indic, for one) the keys would differ and `"db" + dbKey` would name no configured source.
- `IDBRouterStrategy` is an interface with no behaviour. The strategy class is modelled directly, without an interface type.
- The annotations `DBRouter` and `DBRouterStrategy` are markers. Their values (`key`, `splitTable`) become plain inputs.
- Uniform spread of keys over shards is a statistical property and is not stated.
- `Character.isWhitespace` follows current Java, where U+180E is not whitespace.
- A Java `String` can hold unpaired surrogates, and `String.hashCode` hashes them as they are. A Dafny `string` holds Unicode scalar values only, so `HashStrategy.HashCode` covers the strings without unpaired surrogates.

## Findings

| source | as written | input that shows it | evidently intended | confidence | as-written member | corrected member |
|---|---|---|---|---|---|---|
| src/main/java/cn/twinkle/middleware/dbs/router/strategy/impl/DBRouterStrategyHashCode.java:69-71 | the out-of-range branch of setTBKey writes `%03d` of 0 into the database key | `setTBKey(-1)`, or any index outside [0, tbCount): the table key keeps its previous value (absent after a clear), and the database key becomes "000", so the data source is asked for "db000", which no database index produces | the fallback stores "000" as the table key and leaves the database key alone, mirroring setDBKey's fallback | high (not executed) | `HashStrategy.ManualTableFallbackOverwritesDbKey` | `HashStrategy.IntendedManualTableKeyInRange` |
