# BoringSearch MeiliSearch index adapter, modelled in Dafny

BoringSearch gives applications one search-index abstraction: documents, queries,
query results, and asynchronous write results. Its MeiliSearch adapter class `Index` maps that
abstraction onto the MeiliSearch PHP client. Most of the class hands calls straight on to
the client. This model covers the adapter's own data handling:

- the list of attributes a query asks the engine to return;
- the mapping from an engine result row to a `Document`;
- the mapping from a `Document` to the row that indexes it;
- how engine answers become `AsynchronousResult`, `SynchronousResult`, an absent
  document, or a raised exception.

Files and modules:

- `Wrappers.dfy`: `Option` and `Result`.
- `Rows.dfy` (`Rows`): string-keyed PHP arrays as ordered entry sequences. `Lookup` reads
  `$row[k]`. `Put` performs `$row[k] = v`, which is also `array_merge` with one
  string key. `WithoutKey` filters a row. `Value<X>` is either a string (`Text`) or an
  opaque payload.
- `PhpCast.dfy` (`PhpCast`): PHP's `(string)` cast of an integer and its `(int)` cast of
  a string, on 64-bit integers. Task identifiers go through both casts.
- `Attributes.dfy` (`Attributes`): `array_unique` and the normalised
  `attributesToRetrieve` list.
- `Index.dfy` (`Index`): documents, queries, results, and the adapter operations. Each
  MeiliSearch client call is a function parameter of the operation that makes it
  (`() -> Reply<...>` for a call without arguments). Its
  outcome is a `Reply`: an answer, an `ApiException`, or any other exception.

Notes on how the code behaves:

- When a document has an attribute named `id`, `array_merge` keeps that key at its
  position and gives it the identifier (`Rows.Put`).
- Attributes keep row order in both directions.
- Asynchronous and synchronous results are two datatypes, as in the code.

## Model

| member | source | states |
|---|---|---|
| `Rows.Lookup` | src/Index/Index.php:135 | `$row[k]` finds a value exactly when `k` is a key, and the value it finds is an entry of the row under `k` |
| `Rows.WithoutKey` | src/Index/Index.php:127-133 | the entries that survive skipping a key never carry that key; an entry survives exactly when it is in the row and its key differs |
| `Rows.WithoutKeyConcat` | src/Index/Index.php:127-133 | skipping a key keeps the row order: filtering a concatenation concatenates the filtered parts |
| `Rows.WithoutKeyAbsent` | src/Index/Index.php:127-133 | a row without the key is passed on unchanged |
| `Rows.WithoutKeyLookup` | src/Index/Index.php:127-133 | skipping `'id'` leaves the value of every other key unchanged |
| `Rows.WithoutKeyUnique` | src/Index/Index.php:127-133 | skipping a key keeps the remaining keys unique |
| `Rows.Put` | src/Index/Index.php:113-115 | `array_merge($row, [k => v])` keeps every existing key in its place, keeps the keys unique, and appends `k` only when it is new |
| `Rows.PutLookup` | src/Index/Index.php:113-115 | after the merge the row holds `v` under `k`, and every other key keeps its value |
| `Rows.PutHasKey` | src/Index/Index.php:113-115 | after the merge the keys are the old keys plus `k` |
| `Rows.PutWithoutKey` | src/Index/Index.php:113-115 | merging `k` and then skipping `k` is the same as skipping `k` |
| `PhpCast.NatToString` | src/Index/Index.php:84 | the decimal form of a number is a non-empty string of digits that denotes the number and has no leading zero: it starts with `0` only when it is `"0"` |
| `PhpCast.IntToString` | src/Index/Index.php:120 | `(string) $n` is the canonical decimal form: a minus sign exactly when `$n` is negative, then digits whose value is the magnitude of `$n` and which start with `0` only when they are `"0"` |
| `PhpCast.StringToIntOfNumericPrefix` | src/Index/Index.php:96 | `(int)` of whitespace, an optional sign, digits and any rest not starting with a digit, `.`, `e` or `E` is the signed value of the digits, saturated at the 64-bit bounds, and 0 when the digits are at least 2^1024 - 2^970, where a C `strtod` reads them as an infinity |
| `PhpCast.StringToIntWithoutDigits` | src/Index/Index.php:96 | `(int)` of a string with no digits and no `.` after its whitespace and sign is 0 |
| `PhpCast.StringToIntOfIntToString` | src/Index/Index.php:96 | `(int)` of `(string) $n` is `$n` for every 64-bit integer, so a task identifier polls the task it was made from |
| `Attributes.Unique` | src/Index/Index.php:54 | `array_unique` returns a list without repetitions that has exactly the input's names |
| `Attributes.UniqueKeepsFirstOccurrenceOrder` | src/Index/Index.php:54 | the kept names appear in the order of their first occurrence in the input |
| `Attributes.UniqueOfDistinct` | src/Index/Index.php:54 | a list without repetitions is returned unchanged |
| `Attributes.AttributesToRetrieve` | src/Index/Index.php:47-54 | the list requests `'id'`, has no repetitions, and names exactly the caller's names and `'id'`, or `'*'` and `'id'` when the caller named none |
| `Attributes.AttributesToRetrieveDefault` | src/Index/Index.php:49-54 | an empty request becomes exactly `['*', 'id']` |
| `Attributes.AttributesToRetrieveKeepsOrder` | src/Index/Index.php:54 | for a non-empty request, the list is the caller's names in first-occurrence order, with `'id'` in the caller's position or else appended last |
| `Attributes.AttributesToRetrieveIdOnce` | src/Index/Index.php:53-54 | `'id'` occurs exactly once |
| `Attributes.AttributesToRetrieveIdempotent` | src/Index/Index.php:54 | normalising a normalised list returns it unchanged |
| `Index.Raised` | src/Index/Index.php:73-77 | a client exception is raised unchanged as an API error or another client error, with its message |
| `Index.CreateDocumentFromResult` | src/Index/Index.php:123-136 | the loop builds exactly the document `RowToDocument` describes: the `'id'` value as the identifier, and the other entries in row order |
| `Index.RowToDocument` | src/Index/Index.php:127-135 | a row converts exactly when its `'id'` is a string. A row without `'id'` and a row whose `'id'` is not a string are the two failures. The identifier is then that string. The attributes are the row's non-`'id'` entries in row order with unchanged values, and none is keyed `'id'` |
| `Index.AttributesToArray` | src/Index/Index.php:113 | the attribute array has unique keys |
| `Index.AttributesToArrayLookup` | src/Index/Index.php:113 | every attribute's value reaches the array; of two attributes with one name, the later wins |
| `Index.AttributesToArrayOfUnique` | src/Index/Index.php:113 | attributes with distinct names become the array entry for entry |
| `Index.DocumentToRow` | src/Index/Index.php:113-115 | the row has unique keys and holds the identifier under `'id'`, which overrides an attribute named `id`. Every other attribute keeps its value, and there are no other keys |
| `Index.DocumentRoundTrip` | src/Index/Index.php:110-136 | for every document, indexing it and mapping its row back gives the same identifier, and as attributes the attribute array less any `id` entry: one entry per name, with the last value given to that name |
| `Index.DocumentRoundTripDistinct` | src/Index/Index.php:110-136 | for a document whose attribute names are distinct, the round trip gives back exactly its attributes, less any attribute named `id` |
| `Index.RowRoundTrip` | src/Index/Index.php:110-136 | mapping a result row to a document and indexing it gives the row back, with `'id'` moved to the end |
| `Index.Accepted` | src/Index/Index.php:118-120 | an accepted write gives success, with task identifier `(string) updateId`, whose `(int)` value is the engine's `updateId`. A client exception is raised |
| `Index.DoIndex` | src/Index/Index.php:108-121 | one row per document, in input order, each the document's row, submitted as one batch; the result wraps the engine's answer to that batch |
| `Index.DoDelete` | src/Index/Index.php:80-85 | the identifiers go to the engine unchanged. Success, with task identifier `(string) updateId`, exactly when the engine answers; otherwise its exception is raised |
| `Index.DoPurge` | src/Index/Index.php:87-92 | success, with task identifier `(string) updateId`, exactly when `deleteAllDocuments` answers; otherwise its exception is raised |
| `Index.IsProcessed` | src/Index/Index.php:98 | the status check holds exactly when the answer's `status` entry is the string `"processed"` |
| `Index.WaitForAsynchronousResult` | src/Index/Index.php:94-103 | polls task `(int) taskIdentifier` and succeeds exactly when the status is the string `"processed"`. Every other status, or none, gives failure, and a poll exception is raised |
| `Index.WaitPollsAcceptedTask` | src/Index/Index.php:84-99 | waiting on the handle of an accepted write polls that write's `updateId` |
| `Index.FindByIdentifier` | src/Index/Index.php:71-78 | absent exactly when the lookup raises an `ApiException`. Otherwise it returns the mapped document, raises the row's failure, or raises the other exception |
| `Index.SearchRequestFor` | src/Index/Index.php:54-60 | the search passes the query's string, limit and offset, and exactly the normalised attribute list `AttributesToRetrieve` of the query's names, which includes `'id'` and has no repetitions |
| `Index.RunQuery` | src/Index/Index.php:45-69 | one match per hit, in hit order, and the hit count and exactness flag are passed on. It succeeds exactly when every hit maps to a document; otherwise it raises the first failing hit's failure, and a search exception is raised |

## Left out

- The MeiliSearch client is not part of this model: `getOrCreateIndex`, `search`,
  `getDocument`, `addDocuments`, `deleteDocuments`, `deleteAllDocuments`,
  `waitForPendingUpdate`. Each is a function parameter, so its network I/O, its blocking
  poll and its timeouts are not modelled. A timeout is one more client exception.
- `getIndex` and the index name are not modelled. The client functions passed in stand
  for the index the name resolves to.
- `FindByIdentifier`: its `getDocument` parameter stands for the combined call
  `getIndex()->getDocument(...)`. Both parts run inside the `try`, so an `ApiException`
  raised while resolving the index also gives "absent".
- `src/Adapter/MeiliSearch.php` holds only construction of `Index`, with no logic.
- The BoringSearch Core classes (`AbstractIndex`, `AttributeCollection`, `Document`,
  `QueryResult`, `Result`) are not part of this model.
  - An attribute is an appended entry, with no duplicate-name validation.
  - `AttributeCollection::toArray` is assumed to assign the attributes in order under
    their names (`Index.AttributesToArray`).
  - A row whose `'id'` is missing or not a string is assumed to be rejected by
    `Document`'s string-typed identifier (`MissingIdentifier`, `IdentifierNotText`).
  - The public `index`/`delete`/`purge` entry points of `AbstractIndex` that call
    `doIndex`/`doDelete`/`doPurge` are not shown.
- PHP array quirks are not modelled:
  - `array_unique` keeps the original integer keys, so the list may have gaps.
  - `array_merge` renumbers integer-like string keys such as `"123"`.
  - Rows accept any string as a key.
- Attribute values are opaque (`Value<X>`), with no coercion or validation.
- `PhpCast.StringToInt`: does not model numeric strings with a decimal point or an
  exponent. PHP rounds such a string to the nearest double before truncating it:
  `(int)"0.99999999999999999999"` is 1 and `(int)"1e3"` is 1000, where the model gives
  0 and 1. Such strings never come from `Index.Accepted`.
- `PhpCast.StringToIntOfNumericPrefix`: states nothing about a rest that starts with
  `.`, `e` or `E`, for the reason above.
- `PhpCast.StringToIntWithoutDigits`: states nothing about a rest that starts with `.`
  (`(int)"-.99999999999999999999"` is -1), for the reason above.
- Query limit and offset are unbounded integers, passed through untouched.
- The engine-level outcomes of write operations are not modelled. Examples: a purged
  index querying empty, or a deleted identifier no longer found. They are the engine's
  behaviour, not the adapter's.
