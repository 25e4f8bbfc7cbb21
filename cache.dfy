/**
 * The SQLite-backed result cache: a table of rows `key -> (value, created_at, expires_at)`
 * with time-limited reads, insert-or-replace writes, deletion, clearing and a sweep of
 * expired rows; and the cache manager that derives keys from the request and wraps each
 * result with its metadata.
 *
 * The database itself is a map field. A failing database call is the `fault` parameter:
 * the call then reports failure and leaves the table as it was. Values pass through JSON
 * unchanged, so a row holds the value itself. SHA-256 is the `sha256` parameter, standing
 * for the hex digest of the UTF-8 encoding.
 */
module Cache {
  import opened Wrappers
  import opened Text

  /** `settings.cache_ttl`: 24 hours. */
  const DEFAULT_TTL: int := 86400
  /** The version suffix of every hashed key; raising it invalidates older rows. */
  const CACHE_VERSION: string := "v2"
  /** The prefix of every cache key. */
  const KEY_PREFIX: string := "postpilot:"

  datatype Row<V> = Row(value: V, createdAt: real, expiresAt: real)

  // ---------------------------------------------------------------------------------------
  // The table as a value
  // ---------------------------------------------------------------------------------------

  /** `ttl or settings.cache_ttl`: a missing or zero ttl falls back to the default. */
  function EffectiveTtl(ttl: Option<int>, default: int): (r: int)
    ensures ttl == None || ttl == Some(0) ==> r == default
    ensures ttl.Some? && ttl.value != 0 ==> r == ttl.value
  {
    if ttl.Some? && ttl.value != 0 then ttl.value else default
  }

  /** A row is live at `now` while its expiry lies strictly in the future. */
  predicate Live<V>(row: Row<V>, now: real) {
    row.expiresAt > now
  }

  /** `SELECT value ... WHERE key = ? AND expires_at > now`. */
  function Lookup<V>(table: map<string, Row<V>>, key: string, now: real): (r: Option<V>)
    ensures r.Some? <==> key in table && Live(table[key], now)
    ensures r.Some? ==> r.value == table[key].value
  {
    if key in table && Live(table[key], now) then Some(table[key].value) else None
  }

  /** `INSERT OR REPLACE`: the row written by `set(key, value, ttl)` at `now`. */
  function Stored<V>(table: map<string, Row<V>>, key: string, value: V, ttl: Option<int>,
                     now: real, default: int): (t: map<string, Row<V>>)
    ensures t.Keys == table.Keys + {key}
    ensures t[key] == Row(value, now, now + EffectiveTtl(ttl, default) as real)
    ensures forall k :: k in table && k != key ==> t[k] == table[k]
  {
    table[key := Row(value, now, now + EffectiveTtl(ttl, default) as real)]
  }

  /** `DELETE FROM cache WHERE expires_at <= now`: the rows kept. */
  function Swept<V>(table: map<string, Row<V>>, now: real): (t: map<string, Row<V>>)
    ensures forall k :: k in t <==> k in table && Live(table[k], now)
    ensures forall k :: k in t ==> t[k] == table[k]
  {
    map k | k in table && Live(table[k], now) :: table[k]
  }

  /** The keys a sweep at `now` deletes; their number is what `cleanup_expired` returns. */
  function ExpiredKeys<V>(table: map<string, Row<V>>, now: real): (ks: set<string>)
    ensures forall k :: k in ks <==> k in table && !Live(table[k], now)
  {
    set k | k in table && !Live(table[k], now)
  }

  /**
   * Round trip: a value written at `now` is read back exactly while the effective ttl has
   * not run out, and not afterwards.
   */
  lemma SetThenGet<V>(table: map<string, Row<V>>, key: string, value: V, ttl: Option<int>,
                      now: real, default: int, later: real)
    ensures Lookup(Stored(table, key, value, ttl, now, default), key, later)
      == if later < now + EffectiveTtl(ttl, default) as real then Some(value) else None
  {
  }

  /** Writing one key changes no read of another key. */
  lemma SetLeavesOtherKeys<V>(table: map<string, Row<V>>, key: string, value: V, ttl: Option<int>,
                              now: real, default: int, other: string, at: real)
    requires other != key
    ensures Lookup(Stored(table, key, value, ttl, now, default), other, at) == Lookup(table, other, at)
  {
  }

  /** After `delete(key)` the key reads as missing and every other key reads as before. */
  lemma DeleteThenGet<V>(table: map<string, Row<V>>, key: string, other: string, at: real)
    ensures Lookup(table - {key}, key, at) == None
    ensures other != key ==> Lookup(table - {key}, other, at) == Lookup(table, other, at)
  {
  }

  /**
   * A sweep at `now` is invisible to every read at `now` or later: it deletes only rows that
   * such reads already skip.
   */
  lemma SweepUnobservable<V>(table: map<string, Row<V>>, now: real, key: string, at: real)
    requires at >= now
    ensures Lookup(Swept(table, now), key, at) == Lookup(table, key, at)
  {
  }

  /** The swept table and the deleted keys partition the table. */
  lemma SweepCount<V>(table: map<string, Row<V>>, now: real)
    ensures Swept(table, now).Keys + ExpiredKeys(table, now) == table.Keys
    ensures Swept(table, now).Keys !! ExpiredKeys(table, now)
    ensures |ExpiredKeys(table, now)| == |table| - |Swept(table, now)|
  {
    var kept := Swept(table, now).Keys;
    var gone := ExpiredKeys(table, now);
    assert kept + gone == table.Keys;
    assert |kept + gone| == |kept| + |gone|;
    assert |table.Keys| == |table|;
    assert |kept| == |Swept(table, now)|;
  }

  /** A second sweep at the same instant deletes nothing. */
  lemma SweepIdempotent<V>(table: map<string, Row<V>>, now: real)
    ensures Swept(Swept(table, now), now) == Swept(table, now)
    ensures ExpiredKeys(Swept(table, now), now) == {}
  {
  }

  // ---------------------------------------------------------------------------------------
  // The SQLite table
  // ---------------------------------------------------------------------------------------

  /** `SQLiteCache`: the `cache` table keyed by `key`. */
  class SqliteCache<V> {
    const defaultTtl: int
    var table: map<string, Row<V>>

    /**
     * `SQLiteCache(db_path)`: the table is created only if it does not exist, so the rows
     * already in the database file (`existing`) are kept.
     */
    constructor(defaultTtl: int, existing: map<string, Row<V>>)
      ensures table == existing && this.defaultTtl == defaultTtl
    {
      this.defaultTtl := defaultTtl;
      table := existing;
    }

    /** `get(key)` at `now`; a failing database reads as a miss. Expired rows stay. */
    function Get(key: string, now: real, fault: bool): (r: Option<V>)
      reads this
      ensures fault ==> r == None
      ensures !fault ==> r == Lookup(table, key, now)
    {
      if fault then None else Lookup(table, key, now)
    }

    /** `set(key, value, ttl)` at `now`. */
    method Set(key: string, value: V, ttl: Option<int>, now: real, fault: bool) returns (ok: bool)
      modifies this
      ensures ok == !fault
      ensures table == if fault then old(table) else Stored(old(table), key, value, ttl, now, defaultTtl)
    {
      if fault {
        return false;
      }
      var effective := EffectiveTtl(ttl, defaultTtl);
      var expiresAt := now + effective as real;
      table := table[key := Row(value, now, expiresAt)];
      return true;
    }

    /** `delete(key)`. */
    method Delete(key: string, fault: bool) returns (ok: bool)
      modifies this
      ensures ok == !fault
      ensures table == if fault then old(table) else old(table) - {key}
    {
      if fault {
        return false;
      }
      table := table - {key};
      return true;
    }

    /** `clear()`. */
    method Clear(fault: bool) returns (ok: bool)
      modifies this
      ensures ok == !fault
      ensures table == if fault then old(table) else map[]
    {
      if fault {
        return false;
      }
      table := map[];
      return true;
    }

    /** `cleanup_expired()` at `now`: the number of deleted rows, or 0 on failure. */
    method CleanupExpired(now: real, fault: bool) returns (deleted: nat)
      modifies this
      ensures fault ==> table == old(table) && deleted == 0
      ensures !fault ==> table == Swept(old(table), now) && deleted == |ExpiredKeys(old(table), now)|
    {
      if fault {
        return 0;
      }
      deleted := |ExpiredKeys(table, now)|;
      table := Swept(table, now);
    }
  }

  // ---------------------------------------------------------------------------------------
  // The cache manager
  // ---------------------------------------------------------------------------------------

  /** The metadata wrapper `CacheManager.set` stores around a result. */
  datatype CacheData<R> = CacheData(result: R, cachedAt: real, mode: string, persona: string, textHash: string)

  /** The string hashed into a key: normalised text, mode, persona and version, colon-separated. */
  function KeyContent(text: string, mode: string, persona: string): string {
    KeyText(text) + ":" + mode + ":" + persona + ":" + CACHE_VERSION
  }

  /** `text.strip().lower()`. */
  function KeyText(text: string): string {
    Lower(Strip(text))
  }

  /** `generate_key`. */
  function GenerateKey(sha256: string -> string, text: string, mode: string, persona: string): (k: string)
    ensures |k| >= |KEY_PREFIX| && k[..|KEY_PREFIX|] == KEY_PREFIX
    ensures k[|KEY_PREFIX|..] == sha256(KeyContent(text, mode, persona))
  {
    KEY_PREFIX + sha256(KeyContent(text, mode, persona))
  }

  /** `cache_data`: the result with its time, mode, persona and the first 16 hex digits of the raw text's hash. */
  function Wrap<R>(sha256: string -> string, text: string, mode: string, persona: string,
                   result: R, now: real): (d: CacheData<R>)
    ensures d.result == result && d.mode == mode && d.persona == persona && d.cachedAt == now
    ensures |d.textHash| == if |sha256(text)| < 16 then |sha256(text)| else 16
    ensures d.textHash == sha256(text)[..|d.textHash|]
  {
    CacheData(result, now, mode, persona, Take(sha256(text), 16))
  }

  /** Texts equal after `strip().lower()` share a key for the same mode and persona. */
  lemma SameNormalizedTextSameKey(sha256: string -> string, t1: string, t2: string, mode: string, persona: string)
    requires KeyText(t1) == KeyText(t2)
    ensures GenerateKey(sha256, t1, mode, persona) == GenerateKey(sha256, t2, mode, persona)
  {
  }

  predicate NoColon(s: string) {
    forall i :: 0 <= i < |s| ==> s[i] != ':'
  }

  /** `a + ":" + b` determines a colon-free `b`. */
  lemma {:induction false} LastFieldDetermined(a1: string, b1: string, a2: string, b2: string)
    requires NoColon(b1) && NoColon(b2)
    requires a1 + ":" + b1 == a2 + ":" + b2
    ensures a1 == a2 && b1 == b2
  {
    var s := a1 + ":" + b1;
    ColonInLongerField(a1, b1, a2, b2);
    ColonInLongerField(a2, b2, a1, b1);
    assert |b1| == |b2|;
    assert b1 == s[|s| - |b1|..] == b2;
    assert a1 == s[..|a1|] == a2;
  }

  /** If two `a + ":" + b` strings agree and one `b` is shorter, the longer `b` holds that colon. */
  lemma ColonInLongerField(a1: string, b1: string, a2: string, b2: string)
    requires a1 + ":" + b1 == a2 + ":" + b2
    ensures |b1| < |b2| ==> b2[|b2| - |b1| - 1] == ':'
  {
    if |b1| < |b2| {
      var s := a1 + ":" + b1;
      assert s[|s| - |b1| - 1] == ':';
      assert s[|s| - |b1| - 1] == (a2 + ":" + b2)[|s| - |b1| - 1];
    }
  }

  /** `n:m:p:v` with colon-free `m`, `p` and `v` determines `n`, `m` and `p`. */
  lemma FieldsDetermined(n1: string, m1: string, p1: string, n2: string, m2: string, p2: string, v: string)
    requires NoColon(m1) && NoColon(m2) && NoColon(p1) && NoColon(p2) && NoColon(v)
    requires n1 + ":" + m1 + ":" + p1 + ":" + v == n2 + ":" + m2 + ":" + p2 + ":" + v
    ensures n1 == n2 && m1 == m2 && p1 == p2
  {
    LastFieldDetermined(n1 + ":" + m1 + ":" + p1, v, n2 + ":" + m2 + ":" + p2, v);
    LastFieldDetermined(n1 + ":" + m1, p1, n2 + ":" + m2, p2);
    LastFieldDetermined(n1, m1, n2, m2);
  }

  lemma VersionNoColon()
    ensures NoColon(CACHE_VERSION)
  {
  }

  /** The hashed content determines a colon-free mode and persona. */
  lemma ContentDeterminesModeAndPersona(t1: string, m1: string, p1: string, t2: string, m2: string, p2: string)
    requires NoColon(m1) && NoColon(m2) && NoColon(p1) && NoColon(p2)
    ensures KeyContent(t1, m1, p1) == KeyContent(t2, m2, p2) ==> m1 == m2 && p1 == p2
  {
    if KeyContent(t1, m1, p1) == KeyContent(t2, m2, p2) {
      VersionNoColon();
      FieldsDetermined(KeyText(t1), m1, p1, KeyText(t2), m2, p2, CACHE_VERSION);
    }
  }

  /**
   * With an injective hash, requests differing in their colon-free mode or persona never
   * share a key (all the server's modes and personas are colon-free).
   */
  lemma KeysSeparateModesAndPersonas(sha256: string -> string, t1: string, m1: string, p1: string,
                                     t2: string, m2: string, p2: string)
    requires forall x, y :: sha256(x) == sha256(y) ==> x == y
    requires NoColon(m1) && NoColon(m2) && NoColon(p1) && NoColon(p2)
    requires m1 != m2 || p1 != p2
    ensures GenerateKey(sha256, t1, m1, p1) != GenerateKey(sha256, t2, m2, p2)
  {
    var k1 := GenerateKey(sha256, t1, m1, p1);
    var k2 := GenerateKey(sha256, t2, m2, p2);
    assert k1 == k2 ==> k1[|KEY_PREFIX|..] == k2[|KEY_PREFIX|..];
    ContentDeterminesModeAndPersona(t1, m1, p1, t2, m2, p2);
  }

  /**
   * Manager round trip: after `set(text, mode, persona, result)` at `now`, `get` with the same
   * request before expiry returns the wrapper holding `result`, `mode` and `persona`.
   */
  lemma ManagerRoundTrip<R>(sha256: string -> string, table: map<string, Row<CacheData<R>>>,
                            text: string, mode: string, persona: string, result: R,
                            ttl: Option<int>, now: real, default: int, later: real)
    requires later < now + EffectiveTtl(ttl, default) as real
    ensures var key := GenerateKey(sha256, text, mode, persona);
      var t := Stored(table, key, Wrap(sha256, text, mode, persona, result, now), ttl, now, default);
      var got := Lookup(t, key, later);
      got.Some? && got.value.result == result && got.value.mode == mode && got.value.persona == persona
      && got.value.cachedAt == now
  {
  }

  /** `CacheManager` over the SQLite table. */
  class CacheManager<R> {
    const sha256: string -> string
    const cache: SqliteCache<CacheData<R>>

    constructor(sha256: string -> string, cache: SqliteCache<CacheData<R>>)
      ensures this.sha256 == sha256 && this.cache == cache
    {
      this.sha256 := sha256;
      this.cache := cache;
    }

    /** `get(text, mode, persona)` at `now`. */
    function Get(text: string, mode: string, persona: string, now: real, fault: bool): (r: Option<CacheData<R>>)
      reads cache
      ensures r == cache.Get(GenerateKey(sha256, text, mode, persona), now, fault)
    {
      cache.Get(GenerateKey(sha256, text, mode, persona), now, fault)
    }

    /** `set(text, mode, persona, result, ttl)` at `now`. */
    method Set(text: string, mode: string, persona: string, result: R, ttl: Option<int>, now: real, fault: bool)
      returns (ok: bool)
      modifies cache
      ensures ok == !fault
      ensures cache.table == if fault then old(cache.table)
        else Stored(old(cache.table), GenerateKey(sha256, text, mode, persona),
                    Wrap(sha256, text, mode, persona, result, now), ttl, now, cache.defaultTtl)
    {
      var key := GenerateKey(sha256, text, mode, persona);
      var data := Wrap(sha256, text, mode, persona, result, now);
      ok := cache.Set(key, data, ttl, now, fault);
    }

    /** `delete(text, mode, persona)`. */
    method Delete(text: string, mode: string, persona: string, fault: bool) returns (ok: bool)
      modifies cache
      ensures ok == !fault
      ensures cache.table == if fault then old(cache.table)
        else old(cache.table) - {GenerateKey(sha256, text, mode, persona)}
    {
      var key := GenerateKey(sha256, text, mode, persona);
      ok := cache.Delete(key, fault);
    }

    /** `clear()`. */
    method Clear(fault: bool) returns (ok: bool)
      modifies cache
      ensures ok == !fault && cache.table == if fault then old(cache.table) else map[]
    {
      ok := cache.Clear(fault);
    }

    /** `cleanup_expired()` at `now`; the SQLite table always has the sweep. */
    method CleanupExpired(now: real, fault: bool) returns (deleted: nat)
      modifies cache
      ensures fault ==> cache.table == old(cache.table) && deleted == 0
      ensures !fault ==>
        cache.table == Swept(old(cache.table), now) && deleted == |ExpiredKeys(old(cache.table), now)|
    {
      deleted := cache.CleanupExpired(now, fault);
    }
  }
}
