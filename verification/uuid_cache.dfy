/** The username -> UUID cache in front of the Mojang profile lookup. A call is
    one atomic step: the clock readings and the lookup are parameters, so hits,
    misses and the one-hour expiry can be stated without a network or a clock. */
module UuidCache {
  import opened Results

  /** Entries expire one hour (in milliseconds) after they were written. */
  const TtlMs: int := 3600 * 1000

  /** A cached UUID and the clock reading (ms) when it was stored. */
  datatype Entry = Entry(uuid: string, timestamp: int)

  /** Keyed by the lower-cased username. */
  type Cache = map<string, Entry>

  /** What the profile lookup answers for a username. */
  datatype Lookup = Found(uuid: string) | LookupFailed(reason: string)

  type Resolver = string -> Lookup

  /** The outcome of one call: the UUID or the lookup's error, the cache after
      the call, and the username the lookup was asked about (None on a hit). */
  datatype Step = Step(result: Result<string, string>, cache: Cache, asked: Option<string>)

  /** Lower-casing, restricted to ASCII letters. */
  function LowerChar(c: char): (d: char)
    ensures 'A' <= c <= 'Z' ==> d as int == c as int + 32
    ensures !('A' <= c <= 'Z') ==> d == c
  {
    if 'A' <= c <= 'Z' then (c as int + 32) as char else c
  }

  function Lower(s: string): (r: string)
    ensures |r| == |s|
  {
    seq(|s|, i requires 0 <= i < |s| => LowerChar(s[i]))
  }

  /** Lower-casing is idempotent, so stored keys are their own lower case. */
  lemma LowerIdempotent(s: string)
    ensures Lower(Lower(s)) == Lower(s)
  {
    forall i | 0 <= i < |s|
      ensures Lower(Lower(s))[i] == Lower(s)[i]
    {
      assert Lower(s)[i] == LowerChar(s[i]);
    }
  }

  /** Usernames differing only in the case of ASCII letters share a key. */
  lemma SameKeyIgnoringCase()
    ensures Lower("Notch") == Lower("NOTCH") == "notch"
  {
  }

  /** The cache key of a username. */
  function Key(username: string): string {
    Lower(username)
  }

  /** The entry is still fresh at time now: younger than one hour, strictly. */
  predicate Fresh(e: Entry, now: int) {
    now - e.timestamp < TtlMs
  }

  predicate IsHit(cache: Cache, username: string, now: int) {
    Key(username) in cache && Fresh(cache[Key(username)], now)
  }

  /** One call of the cached lookup. now is the clock reading when the cache is
      consulted; storedAt is the reading taken after the lookup answers, which
      becomes the new entry's timestamp. */
  function GetUuid(cache: Cache, username: string, resolve: Resolver, now: int, storedAt: int): (s: Step)
    ensures s.asked == None <==> IsHit(cache, username, now)
    ensures s.asked.None? ==> s.result == Success(cache[Key(username)].uuid) && s.cache == cache
    ensures s.asked.Some? ==> s.asked == Some(username)
    ensures s.result.Failure? ==> s.cache == cache && s.asked.Some?
    ensures s.result.Success? ==> Key(username) in s.cache && s.cache[Key(username)].uuid == s.result.value
    ensures forall k | k != Key(username) :: (k in s.cache <==> k in cache) && (k in cache ==> s.cache[k] == cache[k])
    ensures s.asked.Some? ==> (s.result.Success? <==> resolve(username).Found?)
    ensures s.asked.Some? && s.result.Success? ==>
      s.result.value == resolve(username).uuid && s.cache[Key(username)].timestamp == storedAt
    ensures s.result.Failure? ==> s.result.error == resolve(username).reason
  {
    var key := Key(username);
    if key in cache && Fresh(cache[key], now) then
      Step(Success(cache[key].uuid), cache, None)
    else
      match resolve(username)
      case Found(uuid) => Step(Success(uuid), cache[key := Entry(uuid, storedAt)], Some(username))
      case LookupFailed(reason) => Step(Failure(reason), cache, Some(username))
  }

  /** The one-hour boundary is strict: an entry exactly one hour old is stale and
      the lookup is asked again. */
  lemma ExpiryIsStrict(cache: Cache, username: string, resolve: Resolver, storedAt: int)
    requires Key(username) in cache
    ensures GetUuid(cache, username, resolve, cache[Key(username)].timestamp + TtlMs, storedAt).asked == Some(username)
    ensures GetUuid(cache, username, resolve, cache[Key(username)].timestamp + TtlMs - 1, storedAt).asked == None
  {
  }

  /** Two usernames with the same key are answered alike: the same hit or miss,
      the same UUID and the same cache afterwards, given the same lookup answer. */
  lemma CaseInsensitive(cache: Cache, a: string, b: string, resolve: Resolver, now: int, storedAt: int)
    requires Key(a) == Key(b)
    requires resolve(a) == resolve(b)
    ensures GetUuid(cache, a, resolve, now, storedAt).result == GetUuid(cache, b, resolve, now, storedAt).result
    ensures GetUuid(cache, a, resolve, now, storedAt).cache == GetUuid(cache, b, resolve, now, storedAt).cache
    ensures GetUuid(cache, a, resolve, now, storedAt).asked.None? == GetUuid(cache, b, resolve, now, storedAt).asked.None?
  {
  }

  /** After a successful call stored at time t, any call for the same username in
      any letter case at a time t' with t' - t < one hour returns the same UUID
      without asking the lookup, and changes nothing. */
  lemma FreshAfterSuccess(cache: Cache, a: string, b: string, resolve: Resolver, resolve': Resolver,
                          now: int, storedAt: int, now': int, storedAt': int)
    requires GetUuid(cache, a, resolve, now, storedAt).result.Success?
    requires Key(a) == Key(b)
    requires now' - storedAt < TtlMs
    requires !IsHit(cache, a, now) || now' - cache[Key(a)].timestamp < TtlMs
    ensures var first := GetUuid(cache, a, resolve, now, storedAt);
            var second := GetUuid(first.cache, b, resolve', now', storedAt');
            second.asked == None && second.result == first.result && second.cache == first.cache
  {
  }

  /** Every key of the cache is a lower-cased username. */
  predicate KeysNormalised(cache: Cache) {
    forall k | k in cache :: Lower(k) == k
  }

  /** A call keeps the keys normalised. */
  lemma GetUuidKeepsKeysNormalised(cache: Cache, username: string, resolve: Resolver, now: int, storedAt: int)
    requires KeysNormalised(cache)
    ensures KeysNormalised(GetUuid(cache, username, resolve, now, storedAt).cache)
  {
    LowerIdempotent(username);
  }

  /** A request served by the cache: the username and the two clock readings. */
  datatype Request = Request(username: string, now: int, storedAt: int)

  /** Serves the requests in order against one lookup, returning the final cache
      and how many times the lookup was asked. Nothing is ever evicted; a
      request that misses asks the lookup; and requests that all find a fresh
      entry in the starting cache never ask it and change nothing. */
  function Serve(cache: Cache, requests: seq<Request>, resolve: Resolver): (r: (Cache, nat))
    ensures r.1 <= |requests|
    ensures cache.Keys <= r.0.Keys
    ensures |requests| > 0 && !IsHit(cache, requests[0].username, requests[0].now) ==> r.1 >= 1
    ensures (forall i | 0 <= i < |requests| :: IsHit(cache, requests[i].username, requests[i].now)) ==> r == (cache, 0)
    decreases |requests|
  {
    if requests == [] then (cache, 0)
    else
      var q := requests[0];
      var step := GetUuid(cache, q.username, resolve, q.now, q.storedAt);
      var (final, asked) := Serve(step.cache, requests[1..], resolve);
      (final, asked + if step.asked.Some? then 1 else 0)
  }

  /** Serving any sequence of requests keeps the keys normalised. */
  lemma {:induction false} ServeKeepsKeysNormalised(cache: Cache, requests: seq<Request>, resolve: Resolver)
    requires KeysNormalised(cache)
    ensures KeysNormalised(Serve(cache, requests, resolve).0)
    decreases |requests|
  {
    if requests != [] {
      var q := requests[0];
      GetUuidKeepsKeysNormalised(cache, q.username, resolve, q.now, q.storedAt);
      ServeKeepsKeysNormalised(GetUuid(cache, q.username, resolve, q.now, q.storedAt).cache, requests[1..], resolve);
    }
  }

  /** "Notch" on an empty cache, then "NOTCH" within the hour, asks the lookup
      once; "notch" again once the hour has passed asks it a second time. */
  lemma LookupOncePerHour(resolve: Resolver, t0: int, t1: int, t2: int, t3: int, t4: int, t5: int)
    requires resolve("Notch").Found?
    requires t2 - t1 < TtlMs
    requires t4 - t1 >= TtlMs
    ensures Serve(map[], [Request("Notch", t0, t1), Request("NOTCH", t2, t3)], resolve).1 == 1
    ensures Serve(map[], [Request("Notch", t0, t1), Request("NOTCH", t2, t3), Request("notch", t4, t5)], resolve).1 == 2
  {
    SameKeyIgnoringCase();
    assert Lower("notch") == "notch";
    var s1 := GetUuid(map[], "Notch", resolve, t0, t1);
    assert s1.asked.Some? && s1.cache == map["notch" := Entry(resolve("Notch").uuid, t1)];
    var s2 := GetUuid(s1.cache, "NOTCH", resolve, t2, t3);
    assert s2.asked.None? && s2.cache == s1.cache;
    var s3 := GetUuid(s2.cache, "notch", resolve, t4, t5);
    assert s3.asked.Some?;
    var two := [Request("Notch", t0, t1), Request("NOTCH", t2, t3)];
    var three := two + [Request("notch", t4, t5)];
    assert Serve(s2.cache, [], resolve).1 == 0;
    assert Serve(s2.cache, [Request("notch", t4, t5)], resolve).1 == 1;
    assert Serve(s1.cache, [Request("NOTCH", t2, t3)], resolve).1 == 0 by {
      assert [Request("NOTCH", t2, t3)][1..] == [];
    }
    assert Serve(s1.cache, [Request("NOTCH", t2, t3), Request("notch", t4, t5)], resolve).1 == 1 by {
      assert [Request("NOTCH", t2, t3), Request("notch", t4, t5)][1..] == [Request("notch", t4, t5)];
    }
    assert two[1..] == [Request("NOTCH", t2, t3)];
    assert three[1..] == [Request("NOTCH", t2, t3), Request("notch", t4, t5)];
  }
}
