/** The store entry: a value and the instant it expires at. */
module Entry {
  import opened JavaLang

  /** The expiry instant of an entry that never expires. */
  const NEVER_EXPIRES: Long := -1

  /**
   * ValueWithExpiry: exactly two pieces of state, fixed when the record is
   * built. Any long is accepted as the expiry, with no check.
   */
  datatype ValueWithExpiry = ValueWithExpiry(value: string, expiryTime: Long)

  /** The entry lookup removes: it has an expiry and `now` is strictly past it. */
  predicate IsExpired(e: ValueWithExpiry, now: Long) {
    e.expiryTime != NEVER_EXPIRES && now > e.expiryTime
  }

  /** An entry built with the sentinel is never expired, at any instant. */
  lemma NeverExpiresSentinel(v: string, now: Long)
    ensures !IsExpired(ValueWithExpiry(v, NEVER_EXPIRES), now)
  {
  }
}

/** The in-memory store with lazy expiry: storeSet and the two operations on it. */
module Store {
  import opened Wrappers
  import opened JavaLang
  import opened Entry

  type StoreMap = map<string, ValueWithExpiry>

  /**
   * getValueWithExpiryCheck: the value for `key` and the store afterwards.
   * A missing key gives null; an expired entry is removed; otherwise the
   * value is returned. Nothing else in the store changes.
   */
  function Lookup(m: StoreMap, key: string, now: Long): (r: (Option<string>, StoreMap))
    ensures key !in m ==> r == (None, m)
    ensures key in m && IsExpired(m[key], now) ==> r.0 == None && r.1 == m - {key}
    ensures key in m && !IsExpired(m[key], now) ==> r == (Some(m[key].value), m)
    ensures r.1.Keys <= m.Keys && forall k :: k in r.1 ==> r.1[k] == m[k]
  {
    if key !in m then (None, m)
    else if IsExpired(m[key], now) then (None, m - {key})
    else (Some(m[key].value), m)
  }

  /** storeSet.put(key, new ValueWithExpiry(value, expiryTime)). */
  function Put(m: StoreMap, key: string, value: string, expiryTime: Long): (m': StoreMap)
    ensures m'.Keys == m.Keys + {key}
    ensures m'[key] == ValueWithExpiry(value, expiryTime)
    ensures forall k :: k in m && k != key ==> m'[k] == m[k]
  {
    m[key := ValueWithExpiry(value, expiryTime)]
  }

  /** After a write, a read of the same key sees the value exactly while the entry is not expired. */
  lemma PutThenLookup(m: StoreMap, key: string, value: string, expiryTime: Long, now: Long)
    ensures Lookup(Put(m, key, value, expiryTime), key, now).0 ==
      if expiryTime == NEVER_EXPIRES || now <= expiryTime then Some(value) else None
  {
  }

  /** A write without expiry is visible at every later instant. */
  lemma PutNeverExpires(m: StoreMap, key: string, value: string, now: Long)
    ensures Lookup(Put(m, key, value, NEVER_EXPIRES), key, now) == (Some(value), Put(m, key, value, NEVER_EXPIRES))
  {
  }

  /** The comparison is strict: at the expiry instant itself the value is still returned. */
  lemma LookupAtExpiryInstant(m: StoreMap, key: string, value: string, expiryTime: Long)
    requires expiryTime != NEVER_EXPIRES
    ensures Lookup(Put(m, key, value, expiryTime), key, expiryTime).0 == Some(value)
  {
  }

  /** A second write to a key replaces the first one entirely. */
  lemma PutOverwrites(m: StoreMap, key: string, v1: string, e1: Long, v2: string, e2: Long)
    ensures Put(Put(m, key, v1, e1), key, v2, e2) == Put(m, key, v2, e2)
  {
  }

  /** Writing one key leaves what every other key reads unchanged. */
  lemma PutLeavesOtherKeys(m: StoreMap, key: string, value: string, expiryTime: Long, other: string, now: Long)
    requires other != key
    ensures Lookup(Put(m, key, value, expiryTime), other, now).0 == Lookup(m, other, now).0
  {
  }

  /** Once a read finds a key absent, it stays absent from then on unless written again. */
  lemma AbsentStaysAbsent(m: StoreMap, key: string, now: Long, later: Long)
    requires Lookup(m, key, now).0 == None && now <= later
    ensures Lookup(Lookup(m, key, now).1, key, later) == (None, Lookup(m, key, now).1)
  {
  }

  /** Reading twice at the same instant gives the same answer and changes nothing more. */
  lemma LookupIdempotent(m: StoreMap, key: string, now: Long)
    ensures var (v, m1) := Lookup(m, key, now); Lookup(m1, key, now) == (v, m1)
  {
  }
}
