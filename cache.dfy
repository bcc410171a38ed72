/** The Redis cache adapter (`RedisClient` in redis_client.py). The remote
    server is part of the model: its keys with their expiry, its clock, and
    whether it answers at all. The client's one piece of own state is whether
    the ping made at construction succeeded; without it every operation returns
    a fixed "miss" or "failure" value and touches nothing. */
module Cache {
  import opened Wrappers
  import opened Json
  import Glob

  /** The expiry `set` uses when the caller gives none, in seconds. */
  const DefaultExpire: int := 3600

  /** A stored string and the instant, on the server's clock, from which the
      server no longer holds it (None: the key never expires). */
  datatype Entry = Entry(text: string, expiresAt: Option<int>)

  predicate Live(e: Entry, now: int) {
    e.expiresAt.None? || now < e.expiresAt.value
  }

  /** What `get` yields for `key` on a reachable server: the decoded JSON value,
      or null (Python's None) when the key is absent, holds the empty string or
      does not decode. */
  function Read(store: map<string, Entry>, key: string): (v: Json)
    ensures key !in store ==> v == JNull
    ensures key in store && store[key].text != "" && Decode(store[key].text).Some? ==>
              v == Decode(store[key].text).value
    ensures key in store && (store[key].text == "" || Decode(store[key].text).None?) ==> v == JNull
  {
    if key in store && store[key].text != "" then
      match Decode(store[key].text)
      case Some(j) => j
      case None => JNull
    else JNull
  }

  /** The store after `SETEX key expire json.dumps(value)` at time `now`:
      the key holds the encoded value with a fresh expiry; no other key changes. */
  function Write(store: map<string, Entry>, key: string, value: Json, now: int, expire: int): (s: map<string, Entry>)
    ensures s.Keys == store.Keys + {key}
    ensures s[key].text == Encode(value) && s[key].expiresAt == Some(now + expire)
    ensures forall k :: k in store && k != key ==> s[k] == store[k]
  {
    store[key := Entry(Encode(value), Some(now + expire))]
  }

  /** The store once its clock reads `now`: the keys whose expiry has come are gone. */
  function Expire(store: map<string, Entry>, now: int): (s: map<string, Entry>)
    ensures forall k :: k in s <==> k in store && Live(store[k], now)
    ensures forall k :: k in s ==> s[k] == store[k]
  {
    map k | k in store && Live(store[k], now) :: store[k]
  }

  /** The keys `KEYS pattern` lists. */
  function Matching(store: map<string, Entry>, pattern: string): (keys: set<string>)
    ensures forall k :: k in keys <==> k in store && Glob.Matches(pattern, k)
  {
    set k | k in store && Glob.Matches(pattern, k)
  }

  /** A `set` followed by a `get` of the same key yields the value that was set. */
  lemma ReadAfterWrite(store: map<string, Entry>, key: string, value: Json, now: int, expire: int)
    ensures Read(Write(store, key, value, now, expire), key) == value
  {
    DecodeEncode(value);
  }

  /** Until its expiry has elapsed the value is read back; from then on the key
      is gone and reads miss. */
  lemma ReadAfterElapse(store: map<string, Entry>, key: string, value: Json, now: int, expire: int, elapsed: nat)
    ensures elapsed < expire ==>
              Read(Expire(Write(store, key, value, now, expire), now + elapsed), key) == value
    ensures elapsed >= expire ==>
              key !in Expire(Write(store, key, value, now, expire), now + elapsed) &&
              Read(Expire(Write(store, key, value, now, expire), now + elapsed), key) == JNull
  {
    DecodeEncode(value);
  }

  class RedisClient {
    /** `self.redis_client is not None`: the ping made while connecting succeeded. */
    var connected: bool
    /** Whether the Redis server currently answers (decided by the environment). */
    var serverUp: bool
    /** The keys the server holds. */
    var store: map<string, Entry>
    /** The server's clock, in seconds. */
    var clock: int

    /** The server has already dropped every key whose expiry has come. */
    ghost predicate Valid()
      reads this
    {
      forall k :: k in store ==> Live(store[k], clock)
    }

    /** `is_connected`: false without a handle; with one, whether the server
        answers a ping. */
    predicate IsConnected(): (b: bool)
      reads this
      ensures !connected ==> !b
      ensures connected ==> (b <==> serverUp)
    {
      connected && serverUp
    }

    /** `RedisClient()`: creates the handle and connects once. */
    constructor (serverUp: bool, store: map<string, Entry>, clock: int)
      requires forall k :: k in store ==> Live(store[k], clock)
      ensures Valid()
      ensures this.serverUp == serverUp && this.store == store && this.clock == clock
      ensures connected == serverUp
    {
      this.serverUp := serverUp;
      this.store := store;
      this.clock := clock;
      connected := false;
      new;
      Connect();
    }

    /** `_connect`: the handle is kept only when the ping succeeds; there is no
        later reconnection. */
    method Connect()
      modifies this`connected
      ensures connected == serverUp
    {
      connected := true;
      if !serverUp {
        connected := false;
      }
    }

    /** `get`: the decoded value, or null (Python's None) on a miss, on an
        empty or undecodable stored string, or when not connected. */
    method Get(key: string) returns (v: Json)
      requires Valid()
      ensures v == if IsConnected() then Read(store, key) else JNull
    {
      if !IsConnected() {
        return JNull;
      }
      if key in store && store[key].text != "" {
        var decoded := Decode(store[key].text);
        if decoded.None? {
          return JNull;
        }
        return decoded.value;
      }
      return JNull;
    }

    /** `set`: `SETEX key expire json.dumps(value)`. Fails without raising when
        not connected, and when the server rejects a non-positive expiry. */
    method Set(key: string, value: Json, expire: int := DefaultExpire) returns (ok: bool)
      requires Valid()
      modifies this`store
      ensures Valid()
      ensures ok <==> IsConnected() && expire > 0
      ensures store == if ok then Write(old(store), key, value, clock, expire) else old(store)
    {
      if !IsConnected() {
        return false;
      }
      if expire <= 0 {
        return false;
      }
      store := store[key := Entry(Encode(value), Some(clock + expire))];
      return true;
    }

    /** `delete`: true iff the key was there and is now removed. */
    method Delete(key: string) returns (ok: bool)
      requires Valid()
      modifies this`store
      ensures Valid()
      ensures ok <==> IsConnected() && key in old(store)
      ensures store == if IsConnected() then old(store) - {key} else old(store)
    {
      if !IsConnected() {
        return false;
      }
      ok := key in store;
      store := store - {key};
    }

    /** `delete_pattern`: removes every key matching the pattern and returns
        how many there were. */
    method DeletePattern(pattern: string) returns (n: nat)
      requires Valid()
      modifies this`store
      ensures Valid()
      ensures n == if IsConnected() then |Matching(old(store), pattern)| else 0
      ensures store == if IsConnected() then old(store) - Matching(old(store), pattern) else old(store)
    {
      if !IsConnected() {
        return 0;
      }
      var keys := set k | k in store && Glob.Matches(pattern, k);
      if keys == {} {
        return 0;
      }
      store := store - keys;
      n := |keys|;
    }

    /** The environment: time passes on the server, which drops expired keys. */
    method Elapse(seconds: nat)
      requires Valid()
      modifies this`clock, this`store
      ensures Valid()
      ensures clock == old(clock) + seconds && store == Expire(old(store), clock)
    {
      clock := clock + seconds;
      store := map k | k in store && Live(store[k], clock) :: store[k];
    }

    /** The environment: the server goes down or comes back. */
    method SetServerUp(up: bool)
      modifies this`serverUp
      ensures serverUp == up
    {
      serverUp := up;
    }
  }
}
