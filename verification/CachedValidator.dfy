/**
  The verdict cache as an object (reverse-proxy/internal/controlplane/cache.go), one call at
  a time, proved against the decisions that KeySystem interleaves. Key info is copied on
  the way in and on the way out; the copy has its own scopes but shares the expiry pointer.
*/
module CachedValidator {
  import opened Common
  import opened ApiKeys
  import K = KeySystem

  class Instant {
    var at: int
    constructor (at: int)
      ensures this.at == at
    {
      this.at := at;
    }
  }

  class KeyInfoObject {
    var id: int
    var keyPrefix: string
    var ownerId: int
    var scopes: array<string>
    var status: string
    var expiresAt: Instant?

    /** Everything but the expiry, which lies behind the shared pointer. */
    ghost function Shallow(): KeyInfo
      reads this, scopes
    {
      KeyInfo(id, keyPrefix, ownerId, scopes[..], status, None)
    }

    constructor (id: int, keyPrefix: string, ownerId: int, scopes: array<string>, status: string, expiresAt: Instant?)
      ensures this.id == id && this.keyPrefix == keyPrefix && this.ownerId == ownerId
      ensures this.scopes == scopes && this.status == status && this.expiresAt == expiresAt
    {
      this.id, this.keyPrefix, this.ownerId := id, keyPrefix, ownerId;
      this.scopes, this.status, this.expiresAt := scopes, status, expiresAt;
    }
  }

  /** What lies behind an expiry pointer now. */
  ghost function Moment(expiry: Instant?): Option<int>
    reads expiry
  {
    if expiry == null then None else Some(expiry.at)
  }

  datatype ErrorKind = NoError | NotFoundError | RevokedError | ExpiredError | UnavailableError

  /** The pair (info, err) that a validator returns, as a verdict without its expiry. */
  ghost function Shape(info: KeyInfoObject?, err: ErrorKind): Verdict
    requires err.NoError? ==> info != null
    reads info, if info == null then {} else {info.scopes}
  {
    match err
    case NoError => Accepted(info.Shallow())
    case NotFoundError => KeyNotFound
    case RevokedError => KeyRevoked
    case ExpiredError => KeyExpired
    case UnavailableError => ValidatorUnavailable
  }

  /** The expiry that a pair (info, err) brings along, if any. */
  function ExpiryOf(info: KeyInfoObject?): Instant?
    reads info
  {
    if info == null then null else info.expiresAt
  }

  function WithExpiry(v: Verdict, expiry: Option<int>): Verdict {
    if v.Accepted? then Accepted(v.info.(expiresAt := expiry)) else v
  }

  /** The whole verdict of a pair (info, err), the expiry included, as it reads now. */
  ghost function Told(info: KeyInfoObject?, err: ErrorKind): Verdict
    requires err.NoError? ==> info != null
    reads info, if info == null then {} else {info.scopes}, if info == null then null else info.expiresAt
  {
    WithExpiry(Shape(info, err), if info == null then None else Moment(info.expiresAt))
  }

  predicate IsCacheableError(err: ErrorKind) {
    err.NotFoundError? || err.RevokedError? || err.ExpiredError?
  }

  method CloneKeyInfo(value: KeyInfoObject?) returns (copy: KeyInfoObject?)
    ensures value == null <==> copy == null
    ensures copy != null ==>
              && fresh(copy) && fresh(copy.scopes)
              && copy.Shallow() == old(value.Shallow()) && copy.expiresAt == value.expiresAt
  {
    if value == null {
      return null;
    }
    var scopes := new string[value.scopes.Length](i requires 0 <= i < value.scopes.Length reads value, value.scopes => value.scopes[i]);
    copy := new KeyInfoObject(value.id, value.keyPrefix, value.ownerId, scopes, value.status, value.expiresAt);
  }

  datatype Stored = Stored(keyInfo: KeyInfoObject?, err: ErrorKind, expiresAt: int)

  class Cache {
    const cfg: K.Config
    var entries: map<int, Stored>
    ghost var facts: map<int, K.Entry>
    ghost var expiries: map<int, Instant?>
    ghost var Repr: set<object>

    /** An entry whose objects the cache owns, and what is known of it. */
    ghost predicate Kept(e: Stored, fact: K.Entry, expiry: Instant?)
      reads this, Repr
    {
      && (e.err.NoError? <==> e.keyInfo != null) && !e.err.UnavailableError?
      && (e.keyInfo != null ==> e.keyInfo in Repr && e.keyInfo.scopes in Repr)
      && fact.expiresAt == e.expiresAt
      && WithExpiry(fact.verdict, None) == Shape(e.keyInfo, e.err)
      && expiry == ExpiryOf(e.keyInfo)
    }

    /** `facts` is the cache as KeySystem sees it, with each expiry as it read when it was
        stored; `expiries` are the pointers stored, which lie outside the cache. */
    ghost predicate Valid()
      reads this, Repr
    {
      && this in Repr && (forall o | o in Repr :: !(o is Instant))
      && facts.Keys == entries.Keys && expiries.Keys == entries.Keys
      && forall d | d in entries :: Kept(entries[d], facts[d], expiries[d])
    }

    constructor (cfg: K.Config)
      ensures Valid() && fresh(Repr) && this.cfg == cfg && facts == map[]
    {
      this.cfg := cfg;
      entries, facts, expiries := map[], map[], map[];
      Repr := {this};
    }

    /** `reply` and `err` are what the control plane answers if it is asked. A hit tells what
        was stored, with the expiry that the stored pointer reads now. */
    method ValidateKey(key: string, now: int, reply: KeyInfoObject?, err: ErrorKind)
      returns (info: KeyInfoObject?, outcome: ErrorKind)
      requires Valid() && (err.NoError? <==> reply != null)
      modifies this
      ensures Valid() && fresh(Repr - old(Repr))
      ensures outcome.NoError? <==> info != null
      ensures info != null ==> fresh(info) && fresh(info.scopes) && info !in Repr && info.scopes !in Repr
      ensures K.Hit(cfg, old(facts), key, now) ==>
                && cfg.digest(key) in old(expiries)
                && facts == old(facts) && expiries == old(expiries)
                && ExpiryOf(info) == expiries[cfg.digest(key)]
                && Told(info, outcome) == WithExpiry(facts[cfg.digest(key)].verdict, Moment(expiries[cfg.digest(key)]))
      ensures !K.Hit(cfg, old(facts), key, now) ==>
                && outcome == err && ExpiryOf(info) == ExpiryOf(reply)
                && Told(info, outcome) == old(Told(reply, err))
                && (!Cacheable(old(Told(reply, err))) ==> facts == old(facts) && expiries == old(expiries))
                && (Cacheable(old(Told(reply, err))) ==>
                      && facts == old(facts)[cfg.digest(key) := K.EntryFor(cfg, key, old(Told(reply, err)), now, now)]
                      && expiries == old(expiries)[cfg.digest(key) := ExpiryOf(reply)])
    {
      var cacheKey := cfg.digest(key);
      if cacheKey in entries && now < entries[cacheKey].expiresAt {
        var entry := entries[cacheKey];
        info := CloneKeyInfo(entry.keyInfo);
        outcome := entry.err;
        return;
      }
      if !err.NoError? && !IsCacheableError(err) {
        return null, err;
      }
      var ttl := if err.NoError? then cfg.positiveTtl else cfg.negativeTtl;
      var stored := CloneKeyInfo(reply);
      info := CloneKeyInfo(reply);
      outcome := err;
      Store(key, now, Stored(stored, err, now + ttl));
    }

    method Store(key: string, now: int, entry: Stored)
      requires Valid()
      requires (entry.err.NoError? <==> entry.keyInfo != null) && !entry.err.UnavailableError?
      requires entry.expiresAt == now + K.Ttl(cfg, Told(entry.keyInfo, entry.err))
      modifies this
      ensures Valid()
      ensures Repr == old(Repr) + if entry.keyInfo == null then {} else {entry.keyInfo, entry.keyInfo.scopes}
      ensures facts == old(facts)[cfg.digest(key) := K.EntryFor(cfg, key, old(Told(entry.keyInfo, entry.err)), now, now)]
      ensures expiries == old(expiries)[cfg.digest(key) := ExpiryOf(entry.keyInfo)]
    {
      entries := entries[cfg.digest(key) := entry];
      facts := facts[cfg.digest(key) := K.EntryFor(cfg, key, Told(entry.keyInfo, entry.err), now, now)];
      expiries := expiries[cfg.digest(key) := ExpiryOf(entry.keyInfo)];
      if entry.keyInfo != null {
        Repr := Repr + {entry.keyInfo, entry.keyInfo.scopes};
      }
      assert Kept(entry, facts[cfg.digest(key)], expiries[cfg.digest(key)]);
      forall d | d in entries && d != cfg.digest(key)
        ensures Kept(entries[d], facts[d], expiries[d])
      {
        assert d in old(entries) && old(Kept(entries[d], facts[d], expiries[d]));
      }
    }
  }

  // ---------- Isolation ----------

  /** Anything a caller may do to what it was given: to the struct, re-pointing its fields
      included, to the scopes, and, if `through` says so, to the instant behind the expiry
      pointer. The contract promises nothing else about the values written. */
  method Scribble(info: KeyInfoObject, through: Option<int>)
    modifies info, info.scopes, info.expiresAt
    ensures var expiry := old(info.expiresAt);
            expiry != null ==> expiry.at == if through.Some? then through.value else old(info.expiresAt.at)
  {
    if info.expiresAt != null && through.Some? {
      info.expiresAt.at := through.value;
    }
    forall i | 0 <= i < info.scopes.Length { info.scopes[i] := "admin"; }
    info.id, info.status := *, *;
    info.keyPrefix, info.ownerId := *, *;
    info.scopes := new string[0];
    info.expiresAt := new Instant(0);
  }

  /** What a call is told, and the expiry pointer it is handed: those of the cache on a hit,
      those of the reply otherwise. */
  ghost function FirstExpiry(c: Cache, key: string, now: int, reply: KeyInfoObject?): Instant?
    requires c.Valid()
    reads c, c.Repr, reply
  {
    if K.Hit(c.cfg, c.facts, key, now) then c.expiries[c.cfg.digest(key)] else ExpiryOf(reply)
  }

  ghost function FirstTold(c: Cache, key: string, now: int, reply: KeyInfoObject?, err: ErrorKind): Verdict
    requires c.Valid() && (err.NoError? ==> reply != null)
    reads c, c.Repr, reply, if reply == null then {} else {reply.scopes}, FirstExpiry(c, key, now, reply), ExpiryOf(reply)
  {
    if K.Hit(c.cfg, c.facts, key, now) then
      WithExpiry(c.facts[c.cfg.digest(key)].verdict, Moment(c.expiries[c.cfg.digest(key)]))
    else Told(reply, err)
  }

  /** A second call at `later` is a hit, whether the first one at `now` was or not. */
  ghost predicate StaysCached(c: Cache, key: string, now: int, reply: KeyInfoObject?, err: ErrorKind, later: int)
    requires c.Valid() && (err.NoError? ==> reply != null)
    reads c, c.Repr, reply, if reply == null then {} else {reply.scopes}, ExpiryOf(reply)
  {
    if K.Hit(c.cfg, c.facts, key, now) then later < c.facts[c.cfg.digest(key)].expiresAt
    else Cacheable(Told(reply, err)) && later < now + K.Ttl(c.cfg, Told(reply, err))
  }

  /** Ask, let the caller write whatever it likes to its answer, and ask again while the entry
      is fresh; the first answer may come from the cache or from the control plane. The second
      differs from the first exactly when the caller wrote another instant through the expiry
      pointer; then it shows that instant. */
  method LaterHitChangesIff(c: Cache, key: string, now: int, reply: KeyInfoObject?, err: ErrorKind,
                            through: Option<int>, later: int)
    returns (second: KeyInfoObject?, outcome: ErrorKind)
    requires c.Valid() && (err.NoError? <==> reply != null) && StaysCached(c, key, now, reply, err, later)
    modifies c, FirstExpiry(c, key, now, reply)
    ensures c.Valid() && (outcome.NoError? <==> second != null)
    ensures Told(second, outcome) != old(FirstTold(c, key, now, reply, err)) <==>
            && old(FirstExpiry(c, key, now, reply)) != null && through.Some?
            && through.value != old(FirstExpiry(c, key, now, reply).at)
    ensures Told(second, outcome) == WithExpiry(old(FirstTold(c, key, now, reply, err)), Moment(ExpiryOf(second)))
    ensures ExpiryOf(second) == old(FirstExpiry(c, key, now, reply))
    ensures ExpiryOf(second) != null && through.Some? ==> second.expiresAt.at == through.value
  {
    var first, firstErr := c.ValidateKey(key, now, reply, err);
    assert ExpiryOf(first) == old(FirstExpiry(c, key, now, reply));
    assert Told(first, firstErr) == old(FirstTold(c, key, now, reply, err));
    if first != null {
      Scribble(first, through);
    }
    assert K.Hit(c.cfg, c.facts, key, later);
    second, outcome := c.ValidateKey(key, later, null, UnavailableError);
  }

  /** Without a write through the expiry pointer, nothing a caller writes to its answer,
      wherever that came from, changes the next one. */
  method AnswersAreIsolated(c: Cache, key: string, now: int, reply: KeyInfoObject?, err: ErrorKind, later: int)
    returns (info: KeyInfoObject?, outcome: ErrorKind)
    requires c.Valid() && (err.NoError? <==> reply != null) && StaysCached(c, key, now, reply, err, later)
    modifies c, FirstExpiry(c, key, now, reply)
    ensures c.Valid() && (outcome.NoError? <==> info != null)
    ensures Told(info, outcome) == old(FirstTold(c, key, now, reply, err))
  {
    info, outcome := LaterHitChangesIff(c, key, now, reply, err, None, later);
  }

  /** With one, the next caller is served the expiry that the first caller wrote. */
  method ExpiryIsShared(c: Cache, key: string, now: int, reply: KeyInfoObject, expiry: Instant, other: int, later: int)
    returns (second: KeyInfoObject?, outcome: ErrorKind)
    requires c.Valid() && reply.expiresAt == expiry && expiry.at != other
    requires !K.Hit(c.cfg, c.facts, key, now) && later < now + c.cfg.positiveTtl
    modifies c, expiry
    ensures c.Valid() && outcome.NoError? && second != null && second.expiresAt == expiry && expiry.at == other
    ensures Told(second, NoError) == WithExpiry(old(Told(reply, NoError)), Some(other))
    ensures Told(second, NoError) != old(Told(reply, NoError))
  {
    second, outcome := LaterHitChangesIff(c, key, now, reply, NoError, Some(other), later);
  }
}
