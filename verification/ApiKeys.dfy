/**
  API-key rows, the prefix-indexed lookup of the control plane
  (aegis-backend/app/services/api_key_service.py, app/repositories/api_key_repository.py),
  and the proxy's reading of the control plane's replies
  (reverse-proxy/internal/controlplane/client.go).
*/
module ApiKeys {
  import opened Common

  /** A bcrypt hash, or a stored string that the verifier cannot read. Verification is
      taken to be exact: a hash verifies the key it was made from and no other. */
  datatype KeyHash = HashOf(raw: string) | Malformed

  datatype Verification = Matches | Differs | Raises

  function Verify(raw: string, hash: KeyHash): Verification {
    match hash
    case HashOf(made) => if made == raw then Matches else Differs
    case Malformed => Raises
  }

  datatype Status = Active | Revoked

  datatype Row = Row(
    hash: KeyHash, prefix: string, owner: int, name: string, scopes: seq<string>,
    status: Status, expiresAt: Option<int>, lastUsedAt: Option<int>)

  type Table = map<int, Row>

  // ---------- Lookup ----------

  /** raw_key[:n] */
  function PrefixOf(raw: string, n: nat): (prefix: string)
    ensures prefix <= raw && |prefix| == if |raw| < n then |raw| else n
  {
    if |raw| <= n then raw else raw[..n]
  }

  /** Every hash was made from a key with the stored prefix, and from a key of its own. */
  ghost predicate WellKeyed(table: Table, n: nat) {
    && (forall id | id in table && table[id].hash.HashOf? :: table[id].prefix == PrefixOf(table[id].hash.raw, n))
    && (forall id, id' | id in table && id' in table && table[id].hash.HashOf? && table[id].hash == table[id'].hash :: id == id')
  }

  /** An answer to SELECT ... WHERE key_prefix = prefix: the matching rows, in any order. */
  ghost predicate Selects(table: Table, prefix: string, candidates: seq<int>) {
    && (forall id :: id in candidates <==> id in table && table[id].prefix == prefix)
    && (forall i, j | 0 <= i < j < |candidates| :: candidates[i] != candidates[j])
  }

  predicate Verifies(table: Table, id: int, raw: string) {
    id in table && table[id].hash == HashOf(raw)
  }

  /** The candidate loop: the first candidate that verifies; unreadable hashes are skipped. */
  method FindMatch(table: Table, candidates: seq<int>, raw: string) returns (found: Option<int>)
    requires forall id | id in candidates :: id in table
    ensures found.Some? ==> found.value in candidates && Verifies(table, found.value, raw)
    ensures found.None? ==> forall id | id in candidates :: !Verifies(table, id, raw)
  {
    for i := 0 to |candidates|
      invariant forall j | 0 <= j < i :: !Verifies(table, candidates[j], raw)
    {
      assert candidates[i] in candidates;
      match Verify(raw, table[candidates[i]].hash) {
        case Matches => return Some(candidates[i]);
        case Differs =>
        case Raises => continue;
      }
    }
    found := None;
  }

  /** The row a key belongs to, by a scan of the whole table. */
  ghost function FullScan(table: Table, raw: string): Option<int> {
    if exists id :: Verifies(table, id, raw) then (var id :| Verifies(table, id, raw); Some(id)) else None
  }

  /** Looking only at the rows with the key's prefix gives what a scan of all rows gives. */
  lemma PrefixLookupIsFullScan(table: Table, n: nat, raw: string, candidates: seq<int>, found: Option<int>)
    requires WellKeyed(table, n) && Selects(table, PrefixOf(raw, n), candidates)
    requires found.Some? ==> found.value in candidates && Verifies(table, found.value, raw)
    requires found.None? ==> forall id | id in candidates :: !Verifies(table, id, raw)
    ensures found == FullScan(table, raw)
  {
  }

  method Lookup(table: Table, n: nat, candidates: seq<int>, raw: string) returns (found: Option<int>)
    requires WellKeyed(table, n) && Selects(table, PrefixOf(raw, n), candidates)
    ensures found == FullScan(table, raw)
  {
    found := FindMatch(table, candidates, raw);
    PrefixLookupIsFullScan(table, n, raw, candidates, found);
  }

  // ---------- Writes ----------

  /** The fields an update supplies; None leaves the column alone. */
  datatype Update = Update(
    name: Option<string>, scopes: Option<seq<string>>, status: Option<Status>, lastUsedAt: Option<int>)

  function Set<T>(supplied: Option<T>, current: T): T {
    if supplied.Some? then supplied.value else current
  }

  /** update_api_key writes only the supplied columns of the row as it is now. */
  function Written(row: Row, u: Update): Row {
    row.(name := Set(u.name, row.name), scopes := Set(u.scopes, row.scopes), status := Set(u.status, row.status),
         lastUsedAt := if u.lastUsedAt.Some? then u.lastUsedAt else row.lastUsedAt)
  }

  function Created(raw: string, n: nat, owner: int, name: string, scopes: seq<string>, expiresAt: Option<int>): Row {
    Row(HashOf(raw), PrefixOf(raw, n), owner, name, scopes, Active, expiresAt, None)
  }

  lemma CreateKeepsKeyed(table: Table, n: nat, id: int, row: Row, raw: string)
    requires WellKeyed(table, n) && id !in table
    requires row.hash == HashOf(raw) && row.prefix == PrefixOf(raw, n)
    requires forall other :: !Verifies(table, other, raw)
    ensures WellKeyed(table[id := row], n)
  {
    forall other | other in table
      ensures table[other].hash != HashOf(raw)
    {
      assert !Verifies(table, other, raw);
    }
  }

  // ---------- The reply on the wire, and the proxy's verdict ----------

  datatype KeyInfo = KeyInfo(
    id: int, keyPrefix: string, ownerId: int, scopes: seq<string>, status: string, expiresAt: Option<int>)

  /** What the HTTP call gives back; TransportError also covers unreadable bodies. */
  datatype Response = TransportError | Response(status: int, errorCode: string, data: Option<KeyInfo>)

  datatype Verdict = Accepted(info: KeyInfo) | KeyNotFound | KeyRevoked | KeyExpired | ValidatorUnavailable

  function StatusName(s: Status): string {
    match s case Active => "active" case Revoked => "revoked"
  }

  function InfoOf(id: int, row: Row): KeyInfo {
    KeyInfo(id, row.prefix, row.owner, row.scopes, StatusName(row.status), row.expiresAt)
  }

  const NOT_FOUND_REPLY := Response(404, "API_KEY_NOT_FOUND", None)
  const REVOKED_REPLY := Response(403, "API_KEY_REVOKED", None)
  const EXPIRED_REPLY := Response(403, "API_KEY_EXPIRED", None)

  function FoundReply(info: KeyInfo): Response { Response(200, "", Some(info)) }

  function ToLower(c: char): char {
    if 'A' <= c <= 'Z' then (c as int + 32) as char else c
  }

  function LowerCase(s: string): string {
    seq(|s|, i requires 0 <= i < |s| => ToLower(s[i]))
  }

  /** Lowering changes the letters from A to Z and nothing else, and leaves none of them. */
  lemma LettersAreLowered(c: char)
    ensures !('A' <= ToLower(c) <= 'Z')
    ensures ToLower(c) != c <==> 'A' <= c <= 'Z'
    ensures ToLower(c) != c ==> ToLower(c) as int == c as int - 'A' as int + 'a' as int
  {
  }

  function ClassifyError(status: int, errorCode: string): Verdict {
    if errorCode == "INTERNAL_API_UNAUTHORIZED" then ValidatorUnavailable
    else if status == 404 || (status == 401 && errorCode == "API_KEY_NOT_FOUND") then KeyNotFound
    else if status == 403 && errorCode == "API_KEY_EXPIRED" then KeyExpired
    else if status == 403 then KeyRevoked
    else ValidatorUnavailable
  }

  /** Client.ValidateKey, past the HTTP call; `now` is the proxy's clock. */
  function Decode(r: Response, now: int): Verdict {
    if r.TransportError? then ValidatorUnavailable
    else if r.status != 200 then ClassifyError(r.status, r.errorCode)
    else if r.data.None? then ValidatorUnavailable
    else if LowerCase(r.data.value.status) == "active" then
      if r.data.value.expiresAt.Some? && r.data.value.expiresAt.value <= now then KeyExpired else Accepted(r.data.value)
    else if LowerCase(r.data.value.status) == "revoked" then KeyRevoked
    else ValidatorUnavailable
  }

  // ---------- The service's validation as one operation ----------

  predicate Expired(row: Row, now: int) {
    row.expiresAt.Some? && row.expiresAt.value <= now
  }

  /** The table and the reply after a presented key is validated. */
  ghost function AfterValidation(table: Table, raw: string, now: int): (Table, Response) {
    var found := FullScan(table, raw);
    if found.None? then (table, NOT_FOUND_REPLY)
    else if table[found.value].status == Revoked then (table, REVOKED_REPLY)
    else if Expired(table[found.value], now) then (table, EXPIRED_REPLY)
    else
      var used := Written(table[found.value], Update(None, None, None, Some(now)));
      (table[found.value := used], FoundReply(InfoOf(found.value, used)))
  }

  /** The proxy's verdict against the key table: accepted exactly when some row was made from
      the key, is not revoked and has not expired, and each refusal for its own reason only;
      the info is that row's. */
  lemma VerdictIff(table: Table, n: nat, raw: string, now: int)
    requires WellKeyed(table, n)
    ensures var verdict := Decode(AfterValidation(table, raw, now).1, now);
            && (verdict.KeyNotFound? <==> forall id :: !Verifies(table, id, raw))
            && (verdict.KeyRevoked? <==> exists id :: Verifies(table, id, raw) && table[id].status == Revoked)
            && (verdict.KeyExpired? <==>
                  exists id :: Verifies(table, id, raw) && table[id].status == Active && Expired(table[id], now))
            && (verdict.Accepted? <==>
                  exists id :: Verifies(table, id, raw) && table[id].status == Active && !Expired(table[id], now))
            && (verdict.Accepted? ==>
                  && Verifies(table, verdict.info.id, raw) && verdict.info.ownerId == table[verdict.info.id].owner
                  && verdict.info.scopes == table[verdict.info.id].scopes
                  && verdict.info.expiresAt == table[verdict.info.id].expiresAt
                  && verdict.info.keyPrefix == PrefixOf(raw, n))
    ensures var after := AfterValidation(table, raw, now).0;
            && after.Keys == table.Keys
            && (forall id | id in table :: after[id].(lastUsedAt := None) == table[id].(lastUsedAt := None))
            && forall id | id in table :: after[id].lastUsedAt ==
                 if Verifies(table, id, raw) && table[id].status == Active && !Expired(table[id], now) then Some(now)
                 else table[id].lastUsedAt
  {
  }

  predicate Cacheable(v: Verdict) { !v.ValidatorUnavailable? }

  /** Exactly which replies become which verdict: acceptance takes a 200 with a record whose
      status is active, in any case of letters, and whose expiry has not come by the proxy's own
      clock; whatever else is no refusal is an outage. */
  lemma DecodeIff(r: Response, now: int)
    ensures Decode(r, now).Accepted? <==>
            && r.Response? && r.status == 200 && r.data.Some? && LowerCase(r.data.value.status) == "active"
            && (r.data.value.expiresAt.None? || now < r.data.value.expiresAt.value)
    ensures Decode(r, now).Accepted? ==> Decode(r, now).info == r.data.value
    ensures Decode(r, now).KeyExpired? <==>
            r.Response? && if r.status == 200 then r.data.Some? && LowerCase(r.data.value.status) == "active"
                                                   && r.data.value.expiresAt.Some? && r.data.value.expiresAt.value <= now
                           else r.status == 403 && r.errorCode == "API_KEY_EXPIRED"
    ensures Decode(r, now).KeyRevoked? <==>
            r.Response? && if r.status == 200 then r.data.Some? && LowerCase(r.data.value.status) == "revoked"
                           else r.status == 403 && r.errorCode != "API_KEY_EXPIRED" && r.errorCode != "INTERNAL_API_UNAUTHORIZED"
    ensures Decode(r, now).KeyNotFound? <==>
            && r.Response? && r.status != 200 && r.errorCode != "INTERNAL_API_UNAUTHORIZED"
            && (r.status == 404 || (r.status == 401 && r.errorCode == "API_KEY_NOT_FOUND"))
    ensures LowerCase("Active") == LowerCase("ACTIVE") == "active"
  {
    assert LowerCase("Active") == "active" && LowerCase("ACTIVE") == "active";
    assert "active"[0] != "revoked"[0];
  }

  /** Exactly which error replies become a verdict on the key, and so may be cached: never a
      failure of the control plane, nor its refusal of the proxy itself. */
  lemma RefusalsAreAboutTheKey(status: int, errorCode: string)
    ensures Cacheable(ClassifyError(status, errorCode)) <==>
            && errorCode != "INTERNAL_API_UNAUTHORIZED"
            && (status == 403 || status == 404 || (status == 401 && errorCode == "API_KEY_NOT_FOUND"))
    ensures !ClassifyError(status, errorCode).Accepted?
    ensures ClassifyError(status, errorCode).KeyNotFound? ==> status != 403
    ensures ClassifyError(status, errorCode).KeyExpired? <==> status == 403 && errorCode == "API_KEY_EXPIRED"
  {
  }

  /** The proxy reads every verdict of the control plane as what it was: acceptance only
      from a row read as active and unexpired, each refusal as itself. */
  lemma VerdictsSurviveTheWire(id: int, row: Row, now: int)
    ensures Decode(NOT_FOUND_REPLY, now) == KeyNotFound
    ensures Decode(REVOKED_REPLY, now) == KeyRevoked
    ensures Decode(EXPIRED_REPLY, now) == KeyExpired
    ensures Decode(FoundReply(InfoOf(id, row)), now) ==
            if row.status == Revoked then KeyRevoked
            else if row.expiresAt.Some? && row.expiresAt.value <= now then KeyExpired
            else Accepted(InfoOf(id, row))
  {
  }
}
