/** The fruits resource of fastapi-react/backend/main.py: a table of fruits
    behind a cache-aside layer. A read consults the cache key "fruits:list"
    first and only queries the table on a miss, caching what it read for an
    hour; every successful write invalidates the key after changing the table. */
module Fruits {
  import opened Wrappers
  import opened Json
  import opened Cache

  /** The one cache key, standing for the whole collection. */
  const CacheKey: string := "fruits:list"
  /** The expiry `get_fruits` gives the cached list, in seconds. */
  const ListExpire: int := 3600

  /** A row of the fruits table and the `Fruit` payload of the API alike:
      a name and an optional category. */
  datatype Fruit = Fruit(name: string, category: Option<string>)

  /** An `HTTPException` raised to the client. */
  datatype HttpError = HttpError(status: int, detail: string)

  datatype Response<T> = Ok(value: T) | Err(error: HttpError)

  const AlreadyExists: HttpError := HttpError(400, "Fruit already exists")
  const NotFound: HttpError := HttpError(404, "Fruit not found")
  /** An unhandled exception in a handler: a 500. The application runs with
      `debug=True`, so the real body is a traceback; the detail here is the
      model's own. */
  const ServerError: HttpError := HttpError(500, "Internal Server Error")

  /** `Fruit(**d)`: `d` must be a mapping whose "name" is a string and whose
      "category", if present, is a string or null; other keys are ignored.
      None where the call raises. */
  function FruitOf(j: Json): (r: Option<Fruit>)
    ensures r.Some? <==> && j.JObj?
                         && Lookup(j.members, "name").Some? && Lookup(j.members, "name").value.JStr?
                         && (|| Lookup(j.members, "category").None?
                             || Lookup(j.members, "category").value.JNull?
                             || Lookup(j.members, "category").value.JStr?)
    ensures r.Some? ==> Lookup(j.members, "name") == Some(JStr(r.value.name))
    ensures r.Some? ==> (r.value.category.Some? <==> Lookup(j.members, "category").Some? &&
                                                     Lookup(j.members, "category").value.JStr?)
    ensures r.Some? && r.value.category.Some? ==>
              Lookup(j.members, "category") == Some(JStr(r.value.category.value))
  {
    if !j.JObj? then None
    else
      match Lookup(j.members, "name")
      case Some(JStr(name)) =>
        (match Lookup(j.members, "category")
         case None => Some(Fruit(name, None))
         case Some(JNull) => Some(Fruit(name, None))
         case Some(JStr(category)) => Some(Fruit(name, Some(category)))
         case Some(_) => None)
      case _ => None
  }

  /** `[Fruit(**d) for d in items]`: None if any element is rejected. */
  function FruitsOfItems(items: seq<Json>): (r: Option<seq<Fruit>>)
    ensures r.Some? <==> forall i :: 0 <= i < |items| ==> FruitOf(items[i]).Some?
    ensures r.Some? ==> |r.value| == |items|
    ensures r.Some? ==> forall i :: 0 <= i < |items| ==> FruitOf(items[i]) == Some(r.value[i])
  {
    if items == [] then Some([])
    else
      match (FruitOf(items[0]), FruitsOfItems(items[1..]))
      case (Some(f), Some(fs)) => Some([f] + fs)
      case _ => None
  }

  /** The response a cache hit builds from the decoded value. Only a list can
      be iterated into fruits; iterating a string, a mapping or a boolean
      raises. */
  function FruitsOf(j: Json): Option<seq<Fruit>> {
    if j.JArr? then FruitsOfItems(j.items) else None
  }

  /** The dictionary `get_fruits` builds for a row: its name, and its category
      only when the row has one. Reading it back gives the row. */
  function Project(f: Fruit): (j: Json)
    ensures j.JObj? && Lookup(j.members, "name") == Some(JStr(f.name))
    ensures Lookup(j.members, "category").Some? <==> f.category.Some?
    ensures FruitOf(j) == Some(f)
  {
    JObj([Field("name", JStr(f.name))] +
         (if f.category.Some? then [Field("category", JStr(f.category.value))] else []))
  }

  function ProjectAll(rows: seq<Fruit>): seq<Json> {
    seq(|rows|, i requires 0 <= i < |rows| => Project(rows[i]))
  }

  /** The list `get_fruits` caches decodes back into exactly the rows it came
      from, in order. */
  lemma ListRoundTrip(rows: seq<Fruit>)
    ensures FruitsOf(JArr(ProjectAll(rows))) == Some(rows)
  {
    var items := ProjectAll(rows);
    assert forall i :: 0 <= i < |items| ==> FruitOf(items[i]) == Some(rows[i]);
    var r := FruitsOfItems(items);
    assert r.Some?;
    assert r.value == rows;
  }

  /** `query(Fruit).filter(cond).first()`: the position of the first row
      satisfying `cond`, or None when no row does. */
  function FirstMatch(table: seq<Fruit>, cond: Fruit -> bool): (r: Option<nat>)
    ensures r.Some? ==> r.value < |table| && cond(table[r.value]) &&
                        forall i :: 0 <= i < r.value ==> !cond(table[i])
    ensures r.None? ==> forall i :: 0 <= i < |table| ==> !cond(table[i])
  {
    if table == [] then None
    else if cond(table[0]) then Some(0)
    else
      match FirstMatch(table[1..], cond)
      case None => None
      case Some(i) => Some(i + 1)
  }

  /** The filter of `add_fruit`: equal name and equal category (a missing
      category compares as SQL `IS NULL`). */
  function SameFruit(fruit: Fruit): Fruit -> bool {
    (row: Fruit) => row.name == fruit.name && row.category == fruit.category
  }

  /** The filter of `update_fruit` and `delete_fruit`. */
  function HasName(name: string): Fruit -> bool {
    (row: Fruit) => row.name == name
  }

  /** The handlers of main.py over one table and the shared cache adapter. */
  class FruitService {
    /** The fruits table, in the order `query(Fruit).all()` returns it. */
    var table: seq<Fruit>
    /** The process-wide `redis_client`. */
    const cache: RedisClient
    /** How many times the handlers have read the table: the list query of a
        cache miss and the lookup each write starts with. The INSERT, UPDATE
        and DELETE statements and the `refresh` after a write are not counted. */
    ghost var tableQueries: nat

    ghost predicate Valid()
      reads this, cache
    {
      cache.Valid()
    }

    constructor (table: seq<Fruit>, cache: RedisClient)
      requires cache.Valid()
      ensures Valid() && this.table == table && this.cache == cache && tableQueries == 0
    {
      this.table := table;
      this.cache := cache;
      tableQueries := 0;
    }

    /** What `redis_client.get("fruits:list")` yields in the current state. */
    ghost function Cached(): Json
      reads this, cache
    {
      if cache.IsConnected() then Read(cache.store, CacheKey) else JNull
    }

    /** The cache-aside invariant: a cached list, if any, reads back as the
        table as it stands. */
    ghost predicate Coherent()
      reads this, cache
    {
      CacheKey in cache.store ==> FruitsOf(Read(cache.store, CacheKey)) == Some(table)
    }

    /** The store after `redis_client.delete("fruits:list")`. */
    ghost function Invalidated(store: map<string, Entry>): map<string, Entry>
      reads this, cache
    {
      if cache.IsConnected() then store - {CacheKey} else store
    }

    /** `get_fruits`. A truthy cached value is answered from the cache without
        touching the table (a 500 if it is not a list of fruits). Anything else
        (a miss, an unreachable cache, or a cached empty list) queries the
        table, returns its rows and caches their projection for an hour. */
    method GetFruits() returns (r: Response<seq<Fruit>>)
      requires Valid()
      modifies this`tableQueries, cache`store
      ensures Valid() && table == old(table)
      ensures Truthy(old(Cached())) ==>
                && cache.store == old(cache.store)
                && tableQueries == old(tableQueries)
                && r == (match FruitsOf(old(Cached()))
                         case Some(fruits) => Ok(fruits)
                         case None => Err(ServerError))
      ensures !Truthy(old(Cached())) ==>
                && r == Ok(table)
                && tableQueries == old(tableQueries) + 1
                && cache.store == (if cache.IsConnected()
                                   then Write(old(cache.store), CacheKey, JArr(ProjectAll(table)), cache.clock, ListExpire)
                                   else old(cache.store))
      ensures !Truthy(old(Cached())) && cache.IsConnected() ==>
                Cached() == JArr(ProjectAll(table)) && FruitsOf(Cached()) == Some(table)
      ensures old(Coherent()) ==> r == Ok(table) && Coherent()
      ensures !Truthy(old(Cached())) && cache.IsConnected() ==> Coherent()
    {
      var cached := cache.Get(CacheKey);
      if Truthy(cached) {
        var fruits := FruitsOf(cached);
        if fruits.None? {
          return Err(ServerError);
        }
        return Ok(fruits.value);
      }

      tableQueries := tableQueries + 1;
      var rows := table;
      var fruitList: seq<Json> := [];
      var i := 0;
      while i < |rows|
        invariant 0 <= i <= |rows|
        invariant fruitList == ProjectAll(rows[..i])
      {
        fruitList := fruitList + [Project(rows[i])];
        i := i + 1;
      }
      assert rows[..i] == rows;

      var _ := cache.Set(CacheKey, JArr(fruitList), ListExpire);
      ReadAfterWrite(old(cache.store), CacheKey, JArr(fruitList), cache.clock, ListExpire);

      ListRoundTrip(rows);
      var response := FruitsOf(JArr(fruitList));
      r := Ok(response.value);
    }

    /** `add_fruit`: rejected with 400 when a row with the same name and
        category exists; otherwise appends the row, then invalidates the cache. */
    method AddFruit(fruit: Fruit) returns (r: Response<Fruit>)
      requires Valid()
      modifies this`table, this`tableQueries, cache`store
      ensures Valid() && tableQueries == old(tableQueries) + 1
      ensures match FirstMatch(old(table), SameFruit(fruit))
              case Some(_) =>
                r == Err(AlreadyExists) && table == old(table) && cache.store == old(cache.store)
              case None =>
                r == Ok(fruit) && table == old(table) + [fruit] && cache.store == Invalidated(old(cache.store))
      ensures r.Ok? && cache.IsConnected() ==> CacheKey !in cache.store
      ensures old(Coherent()) && (r.Err? || cache.IsConnected()) ==> Coherent()
    {
      tableQueries := tableQueries + 1;
      var existing := FirstMatch(table, SameFruit(fruit));
      if existing.Some? {
        return Err(AlreadyExists);
      }
      table := table + [fruit];
      var _ := cache.Delete(CacheKey);
      return Ok(fruit);
    }

    /** `update_fruit`: 404 when no row has the name; otherwise replaces both
        fields of the first such row, then invalidates the cache. */
    method UpdateFruit(name: string, fruit: Fruit) returns (r: Response<Fruit>)
      requires Valid()
      modifies this`table, this`tableQueries, cache`store
      ensures Valid() && tableQueries == old(tableQueries) + 1
      ensures match FirstMatch(old(table), HasName(name))
              case None =>
                r == Err(NotFound) && table == old(table) && cache.store == old(cache.store)
              case Some(i) =>
                r == Ok(fruit) && table == old(table)[i := fruit] && cache.store == Invalidated(old(cache.store))
      ensures r.Ok? && cache.IsConnected() ==> CacheKey !in cache.store
      ensures old(Coherent()) && (r.Err? || cache.IsConnected()) ==> Coherent()
    {
      tableQueries := tableQueries + 1;
      var found := FirstMatch(table, HasName(name));
      if found.None? {
        return Err(NotFound);
      }
      table := table[found.value := fruit];
      var _ := cache.Delete(CacheKey);
      return Ok(fruit);
    }

    /** `delete_fruit`: 404 when no row has the name; otherwise removes the
        first such row, then invalidates the cache. */
    method DeleteFruit(name: string) returns (r: Response<string>)
      requires Valid()
      modifies this`table, this`tableQueries, cache`store
      ensures Valid() && tableQueries == old(tableQueries) + 1
      ensures match FirstMatch(old(table), HasName(name))
              case None =>
                r == Err(NotFound) && table == old(table) && cache.store == old(cache.store)
              case Some(i) =>
                r == Ok("Fruit deleted") && table == old(table)[..i] + old(table)[i + 1..] &&
                cache.store == Invalidated(old(cache.store))
      ensures r.Ok? && cache.IsConnected() ==> CacheKey !in cache.store
      ensures old(Coherent()) && (r.Err? || cache.IsConnected()) ==> Coherent()
    {
      tableQueries := tableQueries + 1;
      var found := FirstMatch(table, HasName(name));
      if found.None? {
        return Err(NotFound);
      }
      table := table[..found.value] + table[found.value + 1..];
      var _ := cache.Delete(CacheKey);
      return Ok("Fruit deleted");
    }

    /** Two reads with no write between them give the same response, and when
        the first one cached a non-empty list the second one is served from
        the cache without querying the table. */
    method ReadTwice() returns (first: Response<seq<Fruit>>, second: Response<seq<Fruit>>)
      requires Valid()
      modifies this`tableQueries, cache`store
      ensures Valid() && table == old(table)
      ensures first == second
      ensures !Truthy(old(Cached())) && cache.IsConnected() && table != [] ==>
                tableQueries == old(tableQueries) + 1
    {
      first := GetFruits();
      second := GetFruits();
    }

    /** Invalidation is best effort: a write made while the cache server is
        unreachable leaves the cached list in place, and once the server is
        back reads serve the list from before the write. */
    method StaleReadAfterUnreachableWrite(fruit: Fruit) returns (r: Response<seq<Fruit>>)
      requires Valid() && cache.IsConnected()
      requires Truthy(Cached()) && FruitsOf(Cached()) == Some(table)
      requires fruit !in table
      modifies this`table, this`tableQueries, cache`store, cache`serverUp
      ensures table == old(table) + [fruit]
      ensures r == Ok(old(table)) && r != Ok(table)
      ensures cache.IsConnected() && cache.store == old(cache.store) && Cached() == old(Cached())
    {
      cache.SetServerUp(false);
      var added := AddFruit(fruit);
      cache.SetServerUp(true);
      r := GetFruits();
    }

    /** A successful write made while the cache server answers is seen by the
        next read, whether it is served from the cache or from the table. */
    method ReadAfterReachableWrite(fruit: Fruit) returns (added: Response<Fruit>, r: Response<seq<Fruit>>)
      requires Valid() && Coherent() && cache.IsConnected()
      modifies this`table, this`tableQueries, cache`store
      ensures Valid() && Coherent()
      ensures added.Ok? ==> table == old(table) + [fruit]
      ensures added.Err? ==> table == old(table)
      ensures r == Ok(table)
    {
      added := AddFruit(fruit);
      r := GetFruits();
    }
  }
}
