# Fruits cache-aside service and student table, in Dafny

This project models the behaviour of two small FastAPI services and proves
properties of the model.

- **The fruits service** (`fastapi-react/backend`). Its list endpoint reads
  through a Redis cache under the single key `"fruits:list"`. On a miss it
  queries the fruits table, projects each row into `{name, category?}`,
  caches the list as JSON for 3600 seconds and returns it. Every successful
  add, update or delete changes the table first and then deletes the key.
- **The cache adapter** (`RedisClient`). It wraps the Redis connection. A
  failed ping while connecting leaves it without a handle for good. While it
  is disconnected, or the server does not answer, `get` returns `None`, `set`
  and `delete` return `False` and `delete_pattern` returns `0`. None of them
  raises.
- **The student table** (`myapi.py`). This is a module-level dictionary from
  id to `{name, age, class}`. Create, update and delete change it in place.
  It also has lookups by id and a search by name in insertion order.

Files:

- `wrappers.dfy`: `Option`.
- `json.dfy`: the JSON values the cache stores. `Encode` is `json.dumps` with
  its default separators. `Decode` is `json.loads`, written as a
  recursive-descent decoder. The round trip `Decode(Encode(j)) == Some(j)`
  is proved.
- `glob.dfy`: the key patterns of Redis `KEYS`, used by `delete_pattern`.
- `cache.dfy`: the class `RedisClient`. Its fields are:
  - the remote server's keys, each with an optional expiry;
  - the server's clock;
  - whether the server answers;
  - whether the connection made at construction succeeded.

  Next to the class are the store functions that specify its methods
  (`Read`, `Write`, `Expire`, `Matching`).
- `fruits.dfy`: the class `FruitService`. It holds the table as a sequence of
  rows, the shared cache adapter, and a ghost count of table queries, which
  states that a cache hit never touches the table.
- `students.dfy`: the class `StudentTable`. It holds the dictionary as a map
  and its insertion order as a sequence of ids.

Things the environment does become parameters or methods of the model:

- the server's availability is a field, changed by `SetServerUp`;
- the passing of time is `Elapse`, which drops expired keys;
- the table's contents are a constructor argument.

Invalidation is best effort, as the code is written. A write deletes the key
only when the cache server answers at that moment. `AddFruit`, `UpdateFruit`
and `DeleteFruit` therefore promise that the key is absent after a successful
write only when the cache is reachable. `StaleReadAfterUnreachableWrite`
proves the consequence. A write made while the server is down leaves the
cache exactly as it was. So the next read, once the server is back, serves
the list from before the write. Every later read does too, until the key
expires or a write reaches the server, because nothing else touches the key.

The cache-aside invariant is `Coherent`: a cached list, if any, reads back
as the table as it stands. It does not always hold: the stale read above
breaks it. What is proved is that once it holds, every handler run while the
server answers keeps it, and a read made while it holds returns the table.

A cached empty list counts as a miss, because `if cached_fruits:` tests
truthiness. So with an empty table every read queries the table again.

## Model

| member | source | states |
|---|---|---|
| `Json.DecodeEncode` | fastapi-react/backend/redis_client.py:51-64 | `json.loads` of what `json.dumps` wrote gives back the same value |
| `Json.Encode` | fastapi-react/backend/redis_client.py:63 | the serialized text is never empty and starts with a JSON value, so `if data:` never treats a stored value as a miss |
| `Json.Lookup` | fastapi-react/backend/main.py:58 | the value of a key in a decoded object is the one at its last occurrence, and is missing iff no member has that key |
| `Glob.StarMatchesAll` | fastapi-react/backend/redis_client.py:84 | the pattern `*` lists every key |
| `Glob.LiteralMatchesItself` | fastapi-react/backend/redis_client.py:84 | a pattern without special characters matches exactly the key equal to it |
| `Glob.PrefixStar` | fastapi-react/backend/redis_client.py:84 | a literal prefix followed by `*` matches exactly the keys that start with the prefix |
| `Json.Decode` | fastapi-react/backend/redis_client.py:51 | `json.loads` rejects text made only of whitespace, the empty text included |
| `Glob.Matches` | fastapi-react/backend/redis_client.py:84 | the empty key matches only the empty pattern and `*`; without a `*`, no key longer than the pattern matches; without `*` and `\`, only keys of the pattern's own length match |
| `Cache.Read` | fastapi-react/backend/redis_client.py:48-56 | an absent key reads as None; an empty stored string reads as None (`if data:`); a string that does not decode reads as None (the `except`); any other stored string reads as its decoded value |
| `Cache.Write` | fastapi-react/backend/redis_client.py:63-64 | `SETEX` stores the encoded value under the key with expiry now + `expire`, and every other key keeps its entry |
| `Cache.Expire` | fastapi-react/backend/redis_client.py:64 | once the clock passes a key's expiry, the key is gone; live keys keep their entries |
| `Cache.Matching` | fastapi-react/backend/redis_client.py:84 | `KEYS pattern` lists exactly the stored keys that match the pattern |
| `Cache.ReadAfterWrite` | fastapi-react/backend/redis_client.py:43-64 | a `get` after a `set` of the same key returns the value that was set |
| `Cache.ReadAfterElapse` | fastapi-react/backend/redis_client.py:64 | the value is read back while less than `expire` seconds have passed; from then on the key is absent and reads miss |
| `Cache.RedisClient.constructor` | fastapi-react/backend/redis_client.py:13-15 | the client starts connected iff the server answers the first ping |
| `Cache.RedisClient.IsConnected` | fastapi-react/backend/redis_client.py:34-41 | false without a handle; with a handle, true iff the server answers the ping |
| `Cache.RedisClient.Elapse` | fastapi-react/backend/redis_client.py:64 | as the server's clock advances, it drops exactly the keys whose `SETEX` expiry has come and keeps the rest unchanged |
| `Cache.RedisClient.Connect` | fastapi-react/backend/redis_client.py:17-32 | the handle survives only a successful ping; a failed one leaves the client disconnected |
| `Cache.RedisClient.Get` | fastapi-react/backend/redis_client.py:43-56 | None when not connected or unreachable, otherwise what the store holds under the key, decoded; it never changes the store |
| `Cache.RedisClient.Set` | fastapi-react/backend/redis_client.py:58-69 | succeeds iff connected and `expire > 0`; on success the key holds the value with that expiry and nothing else changes; on failure the store is unchanged |
| `Cache.RedisClient.Delete` | fastapi-react/backend/redis_client.py:71-78 | true iff connected and the key was present; afterwards the key is absent when connected; other keys are unchanged, and nothing changes when not connected |
| `Cache.RedisClient.DeletePattern` | fastapi-react/backend/redis_client.py:80-90 | removes exactly the matching keys and returns their count; 0 and no change when not connected |
| `Fruits.FruitOf` | fastapi-react/backend/main.py:58 | `Fruit(**d)` accepts exactly a mapping whose `name` is a string and whose `category` is missing, null or a string; the fruit has that name, and a category iff `category` is a string |
| `Fruits.FruitsOfItems` | fastapi-react/backend/main.py:58 | the cached list becomes fruits iff every element is an acceptable `Fruit` mapping, element by element and in order |
| `Fruits.Project` | fastapi-react/backend/main.py:63-67 | the projected dictionary has the row's name, has a `category` key iff the row has a category, and reads back as the row |
| `Fruits.ListRoundTrip` | fastapi-react/backend/main.py:58-75 | the list cached on a miss reads back as exactly the table's rows, in order |
| `Fruits.FirstMatch` | fastapi-react/backend/main.py:80 | `filter(...).first()` gives the first row satisfying the filter, or none when no row does |
| `Fruits.FruitService.GetFruits` | fastapi-react/backend/main.py:47-75 | on a truthy cached value: returns it as fruits (500 if malformed), cache unchanged, table not queried; otherwise: returns the table's rows, queries the table once, and caches their projection for 3600 seconds when reachable, so that the cache then reads back as the rows; when the cached list agrees with the table, the response is the table and the agreement is kept |
| `Fruits.FruitService.AddFruit` | fastapi-react/backend/main.py:77-94 | an equal name and category already present gives 400 "Fruit already exists" with table and cache unchanged; otherwise the row is appended, then the key is deleted, and the input is returned; a cached list that agreed with the table still does after a rejection or a write that reached the server |
| `Fruits.FruitService.UpdateFruit` | fastapi-react/backend/main.py:96-110 | no row with the name gives 404 with table and cache unchanged; otherwise only the first such row is replaced, then the key is deleted; a cached list that agreed with the table still does after a rejection or a write that reached the server |
| `Fruits.FruitService.DeleteFruit` | fastapi-react/backend/main.py:112-124 | no row with the name gives 404 with table and cache unchanged; otherwise only the first such row is removed, then the key is deleted, and "Fruit deleted" is returned; a cached list that agreed with the table still does after a rejection or a write that reached the server |
| `Fruits.FruitService.ReadTwice` | fastapi-react/backend/main.py:53-75 | two reads with no write in between give the same response; after a miss that cached a non-empty list, the second read does not query the table |
| `Fruits.FruitService.StaleReadAfterUnreachableWrite` | fastapi-react/backend/main.py:85-91 | a write made while the cache server is down is followed, once the server is back, by a read of the list from before the write, and the cache is left as it was, so later reads serve it too |
| `Fruits.FruitService.ReadAfterReachableWrite` | fastapi-react/backend/main.py:53-94 | with the cache reachable and agreeing with the table, a read after an add returns the table including the added row |
| `Students.StudentTable.constructor` | myapi.py:9-15 | the table starts with exactly student 1: John, 22, "Computer year 12" |
| `Students.StudentTable.GetStudents` | myapi.py:20-22 | every stored record appears once, in insertion order |
| `Students.StudentTable.GetStudent` | myapi.py:24-28 | the record iff the id is stored, else "Student not found" |
| `Students.StudentTable.GetStudentByName` | myapi.py:31-36 | a record iff some student has the queried name, and then the first such one in insertion order; otherwise "Student not found" (always so when no name is given) |
| `Students.StudentTable.GetStudentWithName` | myapi.py:41-47 | "Student id not found" for an unknown id, "Student name not found" when the name differs, the record otherwise |
| `Students.StudentTable.CreateStudent` | myapi.py:56-65 | an existing id gives "Student already exists" with the table unchanged; a new id stores and returns the record, appended to the insertion order, and no other entry changes |
| `Students.StudentTable.UpdateStudent` | myapi.py:68-77 | an unknown id gives "Student not found" with no change; otherwise only that id's whole record is replaced, in place in the order |
| `Students.StudentTable.DeleteStudent` | myapi.py:80-85 | an unknown id gives "Student not found" with no change; otherwise only that id is removed and the success message is returned |
| `Students.Without` | myapi.py:84 | removing an id from the insertion order keeps exactly the other ids |
| `Students.WithoutAt` | myapi.py:84 | `del` cuts the id out of its one position; the other ids keep their relative order |
| `Students.WithoutAbsent` | myapi.py:84 | removing an id that is not in the order changes nothing |

## Left out

- HTTP routing, CORS, the application lifespan and Pydantic validation of request bodies and paths are not modelled. This includes the `gt=0` constraint on `/students/{student_id}`. Handlers take already-validated arguments.
- `index` and `about` in myapi.py are not modelled: they return constant messages.
- The `time.time()` measurements and all logging in main.py and redis_client.py are left out. They have no effect on results.
- The database session is not modelled. The table is a sequence of rows.
  - `query(...).all()` and `.first()` have no ORDER BY, so the database picks the order. The model fixes one order: `add` appends, `update` replaces in place and `delete` cuts out. PostgreSQL may return rows in another order, for instance moving an updated row.
  - `commit` and `refresh` have no further effect.
  - The `unique=True` constraint on the name column is not modelled, nor the commit failure (an HTTP 500) it causes. `add_fruit` hits it when the new fruit takes an existing name with a different category. `update_fruit` has no duplicate check, so it hits it whenever it renames a row to another row's name, whatever the category.
  - The row id is never exposed, so it is left out.
- Cache.RedisClient: a command that fails after a successful ping (a timeout between the two round trips) is not modelled as its own case. In the model the server answers a whole call or none of it. So the `except` branch of `set` is reached by `SETEX` rejecting a non-positive expiry, and the `except` branch of `get` only by stored text that does not decode. The `except` branches of `delete` and `delete_pattern` are never reached.
- The connection options are not modelled: `REDIS_URL`, the socket timeouts and `retry_on_timeout`.
- Real time is an integer clock that the environment advances with `Elapse`.
- Concurrency between requests is not modelled. Each handler runs to completion on its own.
- Json: numbers are not part of the modelled JSON values. The service never stores any, and a stored number reads as undecodable.
- Cache.RedisClient.Set: expiries too large for Redis's 64-bit millisecond deadline are not modelled. Redis rejects them (above 9223372036854775 seconds in Redis 7 and later, and from 2^63 on in every version), and `set` then returns `False`. The model accepts every positive expiry.
- Json: the encoder escapes only `"` and `\`, and the decoder accepts only those two escapes. The `\uXXXX` and control-character escapes of `json.dumps` (with `ensure_ascii`) are not modelled. `default=str` is not needed for the values modelled. The decoder also accepts raw control characters inside strings, which `json.loads` rejects by default; the model's encoder writes them unescaped, so the decoder must accept them for the round trip.
- Glob.Matches: matching is per character, not per UTF-8 byte as in Redis, which receives keys UTF-8 encoded. So `?` and runs under `*` differ on keys with non-ASCII characters: `?` matches the key "é" here but not in Redis. The lemmas about `*` and literal patterns hold under both readings.
- Glob.Matches: bracket classes (`[abc]`, `[a-z]`, `[^a]`) of Redis patterns are not modelled. In the model `[` is an ordinary character. The lemmas about literal patterns exclude `[`, so they hold under both readings.
- Pydantic's coercions when building `Fruit(**d)` from cached data are not modelled. A string field accepts only a JSON string, and `category` also accepts null.
- performance_test.py, test_redis.py, database.py, the React front end and FARM/main.py are not part of this model.
