/**
  The whole seeding transaction (scripts/seed_dev_data.py, seed_dev_data): users, API keys,
  rate-limit rules, route permissions and the JWT configuration, and what a second run does.
*/
module SeedRun {
  import opened Common
  import opened ActiveTable
  import opened Upserts
  import opened Seeding
  import J = JwtConfigs
  import K = ApiKeys
  import L = RateLimitRules
  import R = RoutePermissions

  /** What differs from run to run: the salt of new hashes and the nonce of the encryption. */
  datatype Randomness = Randomness(salt: int, nonce: int)

  // ---------- API keys ----------

  /** The width of api_keys.key_prefix. */
  const PREFIX_WIDTH := 32

  function StoredPrefix(raw: string, n: nat): Option<string> { Column(K.PrefixOf(raw, n), PREFIX_WIDTH) }

  /** `prefix` is what the column makes of the key's prefix. */
  function KeySpec(owner: int, name: string, raw: string, scopes: seq<string>, active: bool, prefix: string, salt: int): Spec<ApiKey> {
    Spec((r: ApiKey) => r.owner == owner && r.name == name, (r: ApiKey) => true,
         ApiKey(owner, name, Salted(raw, salt), prefix, scopes, active, None, None),
         (r: ApiKey) => r.(prefix := prefix, scopes := scopes, active := active, expiresAt := None,
                           hash := Rehashed(raw, salt, r.hash)))
  }

  /** The prefixes of the three keys can be stored. */
  predicate PrefixesFit(s: Secrets, n: nat) {
    StoredPrefix(s.consumer1Active, n).Some? && StoredPrefix(s.consumer2Active, n).Some? && StoredPrefix(s.consumer1Revoked, n).Some?
  }

  const KEY_NAMES := ["DEV SEED - consumer1 active", "DEV SEED - consumer2 active", "DEV SEED - consumer1 revoked"]

  function KeySpecs(s: Secrets, consumer1: int, consumer2: int, n: nat, salt: int): seq<Spec<ApiKey>>
    requires PrefixesFit(s, n)
  {
    [KeySpec(consumer1, KEY_NAMES[0], s.consumer1Active, ["echo:read"], true, StoredPrefix(s.consumer1Active, n).value, salt),
     KeySpec(consumer2, KEY_NAMES[1], s.consumer2Active, ["echo:read", "echo:write", "orders:read"], true,
             StoredPrefix(s.consumer2Active, n).value, salt),
     KeySpec(consumer1, KEY_NAMES[2], s.consumer1Revoked, ["echo:read"], false, StoredPrefix(s.consumer1Revoked, n).value, salt)]
  }

  lemma KeySpecRepeats(owner: int, name: string, raw: string, scopes: seq<string>, active: bool, prefix: string,
                       salt: int, salt': int)
    ensures Repeats(KeySpec(owner, name, raw, scopes, active, prefix, salt), KeySpec(owner, name, raw, scopes, active, prefix, salt'))
  {
  }

  lemma KeyNamesDistinct()
    ensures forall i, j | 0 <= i < |KEY_NAMES| && 0 <= j < |KEY_NAMES| && i != j :: KEY_NAMES[i] != KEY_NAMES[j]
  {
    assert KEY_NAMES[0][19] == '1' && KEY_NAMES[1][19] == '2' && KEY_NAMES[2][19] == '1';
    assert KEY_NAMES[0][21] == 'a' && KEY_NAMES[2][21] == 'r';
  }

  lemma KeySpecsDisjoint(s: Secrets, consumer1: int, consumer2: int, n: nat, salt: int, salt': int)
    requires PrefixesFit(s, n)
    ensures DisjointAll(KeySpecs(s, consumer1, consumer2, n, salt), KeySpecs(s, consumer1, consumer2, n, salt'))
  {
    var specs, again := KeySpecs(s, consumer1, consumer2, n, salt), KeySpecs(s, consumer1, consumer2, n, salt');
    KeyNamesDistinct();
    assert forall i, r | 0 <= i < 3 :: specs[i].matches(r) ==> r.name == KEY_NAMES[i];
    assert forall i, r | 0 <= i < 3 :: again[i].matches(r) ==> r.name == KEY_NAMES[i];
  }

  lemma KeySpecsRepeat(s: Secrets, consumer1: int, consumer2: int, n: nat, salt: int, salt': int)
    requires PrefixesFit(s, n)
    ensures var specs, again := KeySpecs(s, consumer1, consumer2, n, salt), KeySpecs(s, consumer1, consumer2, n, salt');
            RepeatsAll(specs, again) && DisjointAll(specs, again)
  {
    KeySpecsDisjoint(s, consumer1, consumer2, n, salt, salt');
    KeySpecRepeats(consumer1, KEY_NAMES[0], s.consumer1Active, ["echo:read"], true,
                   StoredPrefix(s.consumer1Active, n).value, salt, salt');
    KeySpecRepeats(consumer2, KEY_NAMES[1], s.consumer2Active, ["echo:read", "echo:write", "orders:read"], true,
                   StoredPrefix(s.consumer2Active, n).value, salt, salt');
    KeySpecRepeats(consumer1, KEY_NAMES[2], s.consumer1Revoked, ["echo:read"], false,
                   StoredPrefix(s.consumer1Revoked, n).value, salt, salt');
  }

  // ---------- Rate-limit rules ----------

  function RuleSpec(name: string, scope: L.Scope, algorithm: string, limit: int, window: int, admin: int): Spec<L.Rule> {
    Spec((r: L.Rule) => L.ScopeOf(r) == scope, (r: L.Rule) => r.active,
         L.Rule(name, scope.0, scope.1, algorithm, limit, window, None, true, admin),
         (r: L.Rule) => r.(name := name, algorithm := algorithm, limitCount := limit, windowSeconds := window,
                           burstAllowance := None, active := true, createdBy := admin))
  }

  function RuleSpecs(admin: int, consumer1Key: int): seq<Spec<L.Rule>> {
    [RuleSpec("DEV SEED - global default", (L.Global, None), "fixed_window", 100, 60, admin),
     RuleSpec("DEV SEED - consumer1 demonstration limit", (L.ApiKey, Some(Str(consumer1Key))), "sliding_window", 3, 10, admin),
     RuleSpec("DEV SEED - echo route", (L.Route, Some("/api/echo")), "fixed_window", 10, 10, admin)]
  }

  lemma RuleSpecRepeats(name: string, scope: L.Scope, algorithm: string, limit: int, window: int, admin: int)
    ensures var s := RuleSpec(name, scope, algorithm, limit, window, admin); Repeats(s, s)
  {
  }

  lemma RuleSpecsRepeat(admin: int, consumer1Key: int)
    ensures var specs := RuleSpecs(admin, consumer1Key); RepeatsAll(specs, specs) && DisjointAll(specs, specs)
  {
    RuleSpecRepeats("DEV SEED - global default", (L.Global, None), "fixed_window", 100, 60, admin);
    RuleSpecRepeats("DEV SEED - consumer1 demonstration limit", (L.ApiKey, Some(Str(consumer1Key))), "sliding_window", 3, 10, admin);
    RuleSpecRepeats("DEV SEED - echo route", (L.Route, Some("/api/echo")), "fixed_window", 10, 10, admin);
  }

  /** Seeding a rule never makes a second active rule for any scope. */
  lemma RuleUpsertKeepsOneActive(t: Table<L.Rule>, name: string, scope: L.Scope, algorithm: string, limit: int, window: int, admin: int)
    requires Numbered(t) && OneActivePerKey(t.rows, L.IsActive, L.ScopeOf)
    ensures OneActivePerKey(Upsert(t, RuleSpec(name, scope, algorithm, limit, window, admin)).0.rows, L.IsActive, L.ScopeOf)
  {
    var s := RuleSpec(name, scope, algorithm, limit, window, admin);
    RuleSpecRepeats(name, scope, algorithm, limit, window, admin);
    PreferringActiveKeepsOne(t, s, s, L.IsActive, L.ScopeOf, scope);
  }

  // ---------- Route permissions ----------

  function PermissionSpec(verb: string, path: string, requiredScope: string, admin: int): Spec<R.Permission> {
    Spec((r: R.Permission) => R.RouteOf(r) == (verb, path), (r: R.Permission) => true,
         R.Permission(verb, path, requiredScope, true, admin),
         (r: R.Permission) => r.(requiredScope := requiredScope, active := true, createdBy := admin))
  }

  function PermissionSpecs(admin: int): seq<Spec<R.Permission>> {
    [PermissionSpec("GET", "/api/echo", "echo:read", admin),
     PermissionSpec("POST", "/api/echo", "echo:write", admin),
     PermissionSpec("GET", "/api/orders", "orders:read", admin)]
  }

  lemma PermissionSpecRepeats(verb: string, path: string, requiredScope: string, admin: int)
    ensures var s := PermissionSpec(verb, path, requiredScope, admin); Repeats(s, s)
  {
  }

  lemma PermissionSpecsRepeat(admin: int)
    ensures var specs := PermissionSpecs(admin); RepeatsAll(specs, specs) && DisjointAll(specs, specs)
  {
    PermissionSpecRepeats("GET", "/api/echo", "echo:read", admin);
    PermissionSpecRepeats("POST", "/api/echo", "echo:write", admin);
    PermissionSpecRepeats("GET", "/api/orders", "orders:read", admin);
    assert "GET" != "POST" && "/api/echo"[5] != "/api/orders"[5];
  }

  /** Unlike the rules, permissions are found by id alone. Seeding one keeps one active
      permission per route exactly when no later row of its route was the active one. */
  lemma PermissionUpsertKeepsOneActiveIff(t: Table<R.Permission>, verb: string, path: string, requiredScope: string, admin: int)
    requires Numbered(t) && OneActivePerKey(t.rows, R.IsActive, R.RouteOf)
    ensures OneActivePerKey(Upsert(t, PermissionSpec(verb, path, requiredScope, admin)).0.rows, R.IsActive, R.RouteOf) <==>
            forall id, id' | id in t.rows && id' in t.rows && R.RouteOf(t.rows[id]) == (verb, path)
                             && R.RouteOf(t.rows[id']) == (verb, path) && id < id' :: !R.IsActive(t.rows[id'])
  {
    var s := PermissionSpec(verb, path, requiredScope, admin);
    PermissionSpecRepeats(verb, path, requiredScope, admin);
    FirstByIdKeepsOneIff(t, s, s, R.IsActive, R.RouteOf, (verb, path));
  }

  /** A table on which it does not: the first row of the route is off, the second is on. */
  lemma PermissionUpsertCanDoubleActive()
    ensures exists t: Table<R.Permission> ::
              && Numbered(t) && OneActivePerKey(t.rows, R.IsActive, R.RouteOf)
              && !OneActivePerKey(Upsert(t, PermissionSpec("GET", "/api/echo", "echo:read", 1)).0.rows, R.IsActive, R.RouteOf)
  {
    var t := Table(map[1 := R.Permission("GET", "/api/echo", "echo:read", false, 1),
                       2 := R.Permission("GET", "/api/echo", "echo:read", true, 1)], 3);
    PermissionUpsertKeepsOneActiveIff(t, "GET", "/api/echo", "echo:read", 1);
    assert 1 in t.rows && 2 in t.rows;
  }

  // ---------- The JWT configuration ----------

  const CONFIG_NAME := "DEV SEED - echo service HS256"

  function Named(t: Table<J.JwtConfig>): set<int> {
    set id | id in t.rows && t.rows[id].name == CONFIG_NAME
  }

  function SeededConfig(c: J.JwtConfig, signingKey: string, nonce: int, admin: int): J.JwtConfig {
    J.JwtConfig(c.name, J.HS256, J.Sealed(signingKey, nonce), None, Some("aegis-dev"), Some("aegis-echo-service"),
                900, 3600, true, admin)
  }

  /** Switch every other active row off, then insert or overwrite the seeded one. */
  function UpsertConfig(t: Table<J.JwtConfig>, signingKey: string, nonce: int, admin: int): Table<J.JwtConfig> {
    var found := if Named(t) == {} then None else Some(Min(Named(t)));
    var quiet := map id | id in t.rows :: if Some(id) == found then t.rows[id] else t.rows[id].(active := false);
    if found.None? then
      var blank := J.JwtConfig(CONFIG_NAME, J.HS256, J.Garbled, None, None, None, 0, 0, false, admin);
      Table(quiet[t.nextId := SeededConfig(blank, signingKey, nonce, admin)], t.nextId + 1)
    else t.(rows := quiet[found.value := SeededConfig(t.rows[found.value], signingKey, nonce, admin)])
  }

  /** Equal up to re-encryption of the signing keys. */
  ghost predicate SameConfigs(t: Table<J.JwtConfig>, t': Table<J.JwtConfig>) {
    && t.rows.Keys == t'.rows.Keys && t.nextId == t'.nextId
    && forall id | id in t.rows ::
         && t.rows[id].(signingKey := t'.rows[id].signingKey) == t'.rows[id]
         && J.Decrypt(t.rows[id].signingKey) == J.Decrypt(t'.rows[id].signingKey)
  }

  /** The row written is the first by id under the seeded name, before and after. */
  lemma ConfigFoundAgain(t: Table<J.JwtConfig>, signingKey: string, nonce: int, admin: int) returns (id: int)
    requires Numbered(t)
    ensures id == if Named(t) == {} then t.nextId else Min(Named(t))
    ensures var t1 := UpsertConfig(t, signingKey, nonce, admin);
            && t1.rows.Keys == t.rows.Keys + {id} && id in Named(t1) && Min(Named(t1)) == id
  {
    var t1 := UpsertConfig(t, signingKey, nonce, admin);
    id := if Named(t) == {} then t.nextId else Min(Named(t));
    assert Named(t) != {} ==> id in Named(t);
    assert id in Named(t1);
    forall other | other in Named(t1)
      ensures id <= other
    {
      if other != id {
        assert other in Named(t);
      }
    }
    assert Min(Named(t1)) == id;
  }

  lemma ConfigAsSeeded(t: Table<J.JwtConfig>, signingKey: string, nonce: int, admin: int) returns (id: int)
    requires Numbered(t)
    ensures var t1 := UpsertConfig(t, signingKey, nonce, admin);
            && id in t1.rows && (forall other | other in t1.rows :: t1.rows[other].active <==> other == id)
            && t1.rows[id].name == CONFIG_NAME && J.Decrypt(t1.rows[id].signingKey) == Some(signingKey)
            && t1.rows[id].publicKey.None? && J.Checked(t1.rows[id]) && t1.rows[id].accessTtl == 900 && t1.rows[id].refreshTtl == 3600
            && t1.rows[id].issuer == Some("aegis-dev") && t1.rows[id].audience == Some("aegis-echo-service")
            && t1.rows[id].createdBy == admin && t1.rows[id].algorithm == J.HS256
            && t1.rows.Keys == t.rows.Keys + {id} && Numbered(t1)
            && (if Named(t) == {} then id !in t.rows else id in Named(t) && forall named | named in Named(t) :: id <= named)
            && forall other | other in t.rows && other != id :: t1.rows[other] == t.rows[other].(active := false)
  {
    id := ConfigFoundAgain(t, signingKey, nonce, admin);
  }

  lemma UpsertConfigSettles(t: Table<J.JwtConfig>, signingKey: string, nonce: int, nonce': int, admin: int)
    requires Numbered(t)
    ensures var t1 := UpsertConfig(t, signingKey, nonce, admin);
            SameConfigs(UpsertConfig(t1, signingKey, nonce', admin), t1)
  {
    var id := ConfigFoundAgain(t, signingKey, nonce, admin);
    var active := ConfigAsSeeded(t, signingKey, nonce, admin);
  }

  // ---------- The whole run ----------

  /** None: the run is aborted and rolled back. `n` is the configured key-prefix length. */
  function Seed(db: Database, s: Secrets, n: nat, r: Randomness): Option<Database> {
    match SeedUsers(db.users, s, r.salt) {
      case None => None
      case Some((users, ids)) => if PrefixesFit(s, n) then Some(SeedRest(db, users, ids, s, n, r)) else None
    }
  }

  /** Everything after the users; `ids` are the administrator, the viewer and the consumers. */
  function SeedRest(db: Database, users: Table<User>, ids: seq<int>, s: Secrets, n: nat, r: Randomness): Database
    requires |ids| == |USER_SPECS| && PrefixesFit(s, n)
  {
    var (keys, keyIds) := UpsertAll(db.keys, KeySpecs(s, ids[2], ids[3], n, r.salt));
    var (rules, _) := UpsertAll(db.rules, RuleSpecs(ids[0], keyIds[0]));
    var (permissions, _) := UpsertAll(db.permissions, PermissionSpecs(ids[0]));
    Database(users, keys, rules, permissions, UpsertConfig(db.configs, s.jwtSigningKey, r.nonce, ids[0]))
  }

  /** What the database itself guarantees: unique addresses, ids below the next one. */
  ghost predicate Valid(db: Database) {
    && UniqueEmails(db.users) && Numbered(db.users) && Numbered(db.keys) && Numbered(db.rules)
    && Numbered(db.permissions) && Numbered(db.configs)
  }

  /** Upserting a list of specs twice is upserting it once, whatever is random in it. */
  lemma UpsertTwice<R(!new)>(t: Table<R>, specs: seq<Spec<R>>, again: seq<Spec<R>>)
    requires Numbered(t) && RepeatsAll(specs, again) && DisjointAll(specs, again)
    ensures UpsertAll(UpsertAll(t, specs).0, again) == UpsertAll(t, specs)
  {
    UpsertAllSettles(t, specs, again);
    SettledAllIsNoop(UpsertAll(t, specs).0, again, UpsertAll(t, specs).1);
  }

  lemma StoredPrefixIff(key: string, n: nat)
    ensures StoredPrefix(key, n).Some? <==> n <= PREFIX_WIDTH || |key| <= PREFIX_WIDTH || Blank(K.PrefixOf(key, n)[PREFIX_WIDTH..])
  {
  }

  /** A run succeeds exactly when every user with an old address can be retired (the address
      it is renamed to or its numbered one is free, and its name has room for the mark) and
      the key prefixes fit their column. */
  lemma SeedingSucceedsIff(db: Database, s: Secrets, n: nat, r: Randomness)
    requires Valid(db)
    ensures Seed(db, s, n, r).Some? <==> NoneStranded(db.users, 0) && PrefixesFit(s, n)
    ensures PrefixesFit(s, n) <==>
            forall key | key in {s.consumer1Active, s.consumer2Active, s.consumer1Revoked} ::
              n <= PREFIX_WIDTH || |key| <= PREFIX_WIDTH || Blank(K.PrefixOf(key, n)[PREFIX_WIDTH..])
  {
    StoredPrefixIff(s.consumer1Active, n);
    StoredPrefixIff(s.consumer2Active, n);
    StoredPrefixIff(s.consumer1Revoked, n);
    SeedUsersSucceedsIff(db.users, s, r.salt);
  }

  /** From any starting database, a second run with the same secrets succeeds whenever the
      first one did, and leaves all five tables as the first left them, up to the nonce of
      the re-encrypted signing key. */
  lemma SeedingIsIdempotent(db: Database, s: Secrets, n: nat, first: Randomness, second: Randomness)
    requires Valid(db) && Seed(db, s, n, first).Some?
    ensures var once := Seed(db, s, n, first).value;
            var again := Seed(once, s, n, second);
            && again.Some?
            && again.value.users == once.users && again.value.keys == once.keys && again.value.rules == once.rules
            && again.value.permissions == once.permissions && SameConfigs(again.value.configs, once.configs)
  {
    SeedUsersIdempotent(db.users, s, first.salt, second.salt);
    var (users, ids) := SeedUsers(db.users, s, first.salt).value;
    var keySpecs, keySpecs' := KeySpecs(s, ids[2], ids[3], n, first.salt), KeySpecs(s, ids[2], ids[3], n, second.salt);
    KeySpecsRepeat(s, ids[2], ids[3], n, first.salt, second.salt);
    UpsertTwice(db.keys, keySpecs, keySpecs');
    var keyIds := UpsertAll(db.keys, keySpecs).1;
    RuleSpecsRepeat(ids[0], keyIds[0]);
    UpsertTwice(db.rules, RuleSpecs(ids[0], keyIds[0]), RuleSpecs(ids[0], keyIds[0]));
    PermissionSpecsRepeat(ids[0]);
    UpsertTwice(db.permissions, PermissionSpecs(ids[0]), PermissionSpecs(ids[0]));
    UpsertConfigSettles(db.configs, s.jwtSigningKey, first.nonce, second.nonce, ids[0]);
  }

  function PasswordOf(seed: UserSeed, s: Secrets): string {
    if seed.role == Admin then s.adminPassword else s.userPassword
  }

  predicate UserAsSeeded(u: User, seed: UserSeed, password: string) {
    u.email == seed.email && u.fullName == seed.fullName && u.role == seed.role && u.isActive
    && u.hash.Salted? && u.hash.password == password
  }

  predicate KeyAsSeeded(k: ApiKey, owner: int, name: string, raw: string, scopes: seq<string>, active: bool, n: nat) {
    k.owner == owner && k.name == name && k.hash.Salted? && k.hash.password == raw && StoredPrefix(raw, n) == Some(k.prefix) && k.scopes == scopes
    && k.active == active && k.expiresAt.None?
  }

  predicate RuleAsSeeded(r: L.Rule, name: string, scope: L.Scope, algorithm: string, limit: int, window: int, admin: int) {
    && r.name == name && L.ScopeOf(r) == scope && r.algorithm == algorithm && r.limitCount == limit && r.windowSeconds == window
    && r.burstAllowance.None? && r.active && r.createdBy == admin
  }

  predicate PermissionAsSeeded(p: R.Permission, route: (string, string), requiredScope: string, admin: int) {
    R.RouteOf(p) == route && p.requiredScope == requiredScope && p.active && p.createdBy == admin
  }

  lemma SettledMatches<T>(t: Table<T>, s: Spec<T>, id: int)
    requires Settled(t, s, id)
    ensures id in t.rows && s.matches(t.rows[id]) && s.patch(t.rows[id]) == t.rows[id]
  {
  }

  lemma SettledAllMatch<T>(t: Table<T>, specs: seq<Spec<T>>, ids: seq<int>)
    requires |ids| == |specs| && forall i | 0 <= i < |specs| :: Settled(t, specs[i], ids[i])
    ensures forall i | 0 <= i < |specs| ::
              ids[i] in t.rows && specs[i].matches(t.rows[ids[i]]) && specs[i].patch(t.rows[ids[i]]) == t.rows[ids[i]]
  {
    forall i | 0 <= i < |specs|
      ensures ids[i] in t.rows && specs[i].matches(t.rows[ids[i]]) && specs[i].patch(t.rows[ids[i]]) == t.rows[ids[i]]
    {
      SettledMatches(t, specs[i], ids[i]);
    }
  }

  ghost predicate HasUsers(t: Table<User>, ids: seq<int>, s: Secrets) {
    && |ids| == |USER_SPECS| && NoneLeft(t, |LEGACY_EMAILS|)
    && forall i | 0 <= i < |ids| :: ids[i] in t.rows && UserAsSeeded(t.rows[ids[i]], USER_SPECS[i], PasswordOf(USER_SPECS[i], s))
  }

  predicate HasKeys(t: Table<ApiKey>, ids: seq<int>, s: Secrets, consumer1: int, consumer2: int, n: nat) {
    && |ids| == 3 && ids[0] in t.rows && ids[1] in t.rows && ids[2] in t.rows
    && KeyAsSeeded(t.rows[ids[0]], consumer1, KEY_NAMES[0], s.consumer1Active, ["echo:read"], true, n)
    && KeyAsSeeded(t.rows[ids[1]], consumer2, KEY_NAMES[1], s.consumer2Active,
                   ["echo:read", "echo:write", "orders:read"], true, n)
    && KeyAsSeeded(t.rows[ids[2]], consumer1, KEY_NAMES[2], s.consumer1Revoked, ["echo:read"], false, n)
  }

  predicate HasRules(t: Table<L.Rule>, ids: seq<int>, admin: int, consumer1Key: int) {
    && |ids| == 3 && ids[0] in t.rows && ids[1] in t.rows && ids[2] in t.rows
    && RuleAsSeeded(t.rows[ids[0]], "DEV SEED - global default", (L.Global, None), "fixed_window", 100, 60, admin)
    && RuleAsSeeded(t.rows[ids[1]], "DEV SEED - consumer1 demonstration limit", (L.ApiKey, Some(Str(consumer1Key))),
                    "sliding_window", 3, 10, admin)
    && RuleAsSeeded(t.rows[ids[2]], "DEV SEED - echo route", (L.Route, Some("/api/echo")), "fixed_window", 10, 10, admin)
  }

  predicate HasPermissions(t: Table<R.Permission>, ids: seq<int>, admin: int) {
    && |ids| == 3 && ids[0] in t.rows && ids[1] in t.rows && ids[2] in t.rows
    && PermissionAsSeeded(t.rows[ids[0]], ("GET", "/api/echo"), "echo:read", admin)
    && PermissionAsSeeded(t.rows[ids[1]], ("POST", "/api/echo"), "echo:write", admin)
    && PermissionAsSeeded(t.rows[ids[2]], ("GET", "/api/orders"), "orders:read", admin)
  }

  lemma UsersAsSeeded(t: Table<User>, s: Secrets, salt: int)
    requires UniqueEmails(t) && Numbered(t) && SeedUsers(t, s, salt).Some?
    ensures HasUsers(SeedUsers(t, s, salt).value.0, SeedUsers(t, s, salt).value.1, s)
  {
    var specs := UserSpecs(s, salt);
    var (before, ids) := UpsertAll(t, specs);
    var users := SeedUsers(t, s, salt).value.0;
    UserSpecsRepeat(s, salt, salt);
    UpsertAllSettles(t, specs, specs);
    assert specs[0..] == specs && LEGACY_EMAILS[0..] == LEGACY_EMAILS;
    UserUpsertsKeepUnique(t, s, salt, 0);
    forall i | 0 <= i < |USER_SPECS|
      ensures ids[i] in users.rows && UserAsSeeded(users.rows[ids[i]], USER_SPECS[i], PasswordOf(USER_SPECS[i], s))
      ensures NoneLeft(users, |LEGACY_EMAILS|)
    {
      RetireAllEffect(before, 0, specs[i], USER_SPECS[i], PasswordOf(USER_SPECS[i], s), salt, ids[i]);
      SettledMatches(users, specs[i], ids[i]);
    }
    assert UserAsSeeded(users.rows[ids[0]], USER_SPECS[0], PasswordOf(USER_SPECS[0], s));
  }

  lemma KeysAsSeeded(t: Table<ApiKey>, s: Secrets, consumer1: int, consumer2: int, n: nat, salt: int)
    requires Numbered(t) && PrefixesFit(s, n)
    ensures var (keys, ids) := UpsertAll(t, KeySpecs(s, consumer1, consumer2, n, salt));
            HasKeys(keys, ids, s, consumer1, consumer2, n)
  {
    var specs := KeySpecs(s, consumer1, consumer2, n, salt);
    KeySpecsRepeat(s, consumer1, consumer2, n, salt, salt);
    UpsertAllSettles(t, specs, specs);
    var (keys, ids) := UpsertAll(t, specs);
    SettledAllMatch(keys, specs, ids);
  }

  lemma RulesAsSeeded(t: Table<L.Rule>, admin: int, consumer1Key: int)
    requires Numbered(t)
    ensures var (rules, ids) := UpsertAll(t, RuleSpecs(admin, consumer1Key)); HasRules(rules, ids, admin, consumer1Key)
  {
    var specs := RuleSpecs(admin, consumer1Key);
    RuleSpecsRepeat(admin, consumer1Key);
    UpsertAllSettles(t, specs, specs);
    var (rules, ids) := UpsertAll(t, specs);
    SettledAllMatch(rules, specs, ids);
  }

  lemma PermissionsAsSeeded(t: Table<R.Permission>, admin: int)
    requires Numbered(t)
    ensures var (permissions, ids) := UpsertAll(t, PermissionSpecs(admin)); HasPermissions(permissions, ids, admin)
  {
    var specs := PermissionSpecs(admin);
    PermissionSpecsRepeat(admin);
    UpsertAllSettles(t, specs, specs);
    var (permissions, ids) := UpsertAll(t, specs);
    SettledAllMatch(permissions, specs, ids);
  }

  /** A successful run leaves the promised data behind, whatever was there before: the four
      users active with their roles and passwords and nobody under an old address; the three
      keys verifying their secrets, each with its own prefix, owner, scopes and status; the
      three rules and the three permissions active. */
  lemma SeedingLeavesTheDataset(db: Database, s: Secrets, n: nat, r: Randomness)
    returns (users: seq<int>, keys: seq<int>, rules: seq<int>, permissions: seq<int>)
    requires Valid(db) && Seed(db, s, n, r).Some?
    ensures var after := Seed(db, s, n, r).value;
            && HasUsers(after.users, users, s) && HasKeys(after.keys, keys, s, users[2], users[3], n)
            && HasRules(after.rules, rules, users[0], keys[0]) && HasPermissions(after.permissions, permissions, users[0])
  {
    UsersAsSeeded(db.users, s, r.salt);
    users := SeedUsers(db.users, s, r.salt).value.1;
    KeysAsSeeded(db.keys, s, users[2], users[3], n, r.salt);
    keys := UpsertAll(db.keys, KeySpecs(s, users[2], users[3], n, r.salt)).1;
    RulesAsSeeded(db.rules, users[0], keys[0]);
    rules := UpsertAll(db.rules, RuleSpecs(users[0], keys[0])).1;
    PermissionsAsSeeded(db.permissions, users[0]);
    permissions := UpsertAll(db.permissions, PermissionSpecs(users[0])).1;
  }

  /** A run touches nothing but the rows it seeds, the users it retires and the status of other
      JWT configurations: every other row is as it was, and none is removed. */
  lemma SeedingTouchesNothingElse(db: Database, s: Secrets, n: nat, r: Randomness)
    returns (keys: seq<int>, rules: seq<int>, permissions: seq<int>, config: int)
    requires Valid(db) && Seed(db, s, n, r).Some?
    ensures |keys| == 3 && |rules| == 3 && |permissions| == 3
    ensures var after := Seed(db, s, n, r).value;
            && OthersStay(db.keys, after.keys, keys) && OthersStay(db.rules, after.rules, rules)
            && OthersStay(db.permissions, after.permissions, permissions)
            && after.configs.rows.Keys == db.configs.rows.Keys + {config}
            && forall id | id in db.configs.rows && id != config :: after.configs.rows[id] == db.configs.rows[id].(active := false)
  {
    var (users, ids) := SeedUsers(db.users, s, r.salt).value;
    keys := UpsertAll(db.keys, KeySpecs(s, ids[2], ids[3], n, r.salt)).1;
    UpsertAllWritesItsRows(db.keys, KeySpecs(s, ids[2], ids[3], n, r.salt));
    rules := UpsertAll(db.rules, RuleSpecs(ids[0], keys[0])).1;
    UpsertAllWritesItsRows(db.rules, RuleSpecs(ids[0], keys[0]));
    permissions := UpsertAll(db.permissions, PermissionSpecs(ids[0])).1;
    UpsertAllWritesItsRows(db.permissions, PermissionSpecs(ids[0]));
    config := ConfigAsSeeded(db.configs, s.jwtSigningKey, r.nonce, ids[0]);
  }

  ghost predicate OthersStay<T(!new)>(before: Table<T>, after: Table<T>, ids: seq<int>) {
    && before.rows.Keys <= after.rows.Keys
    && (forall id | id in before.rows && id !in ids :: after.rows[id] == before.rows[id])
    && (forall id | id in after.rows && id !in before.rows :: id in ids)
  }

  /** A key that is found keeps its owner, its name and when it was last used; its hash is
      replaced only if it does not verify the secret. */
  lemma KeyPatchKeeps(owner: int, name: string, raw: string, scopes: seq<string>, active: bool, prefix: string, salt: int, k: ApiKey)
    ensures var patched := KeySpec(owner, name, raw, scopes, active, prefix, salt).patch(k);
            && patched.owner == k.owner && patched.name == k.name && patched.lastUsedAt == k.lastUsedAt
            && (k.hash.Salted? && k.hash.password == raw ==> patched.hash == k.hash)
            && patched.hash.Salted? && patched.hash.password == raw
  {
  }

  /** A run leaves exactly one active JWT configuration, the seeded one with the given key,
      and no scope with two active rules if there was none before. */
  lemma SeedingKeepsOneActive(db: Database, s: Secrets, n: nat, r: Randomness)
    requires Valid(db) && Seed(db, s, n, r).Some?
    ensures var after := Seed(db, s, n, r).value;
            exists id :: id in after.configs.rows && OnlyActive(after.configs, id)
                         && J.Decrypt(after.configs.rows[id].signingKey) == Some(s.jwtSigningKey)
    ensures OneActivePerKey(db.rules.rows, L.IsActive, L.ScopeOf) ==>
              OneActivePerKey(Seed(db, s, n, r).value.rules.rows, L.IsActive, L.ScopeOf)
  {
    var (users, ids) := SeedUsers(db.users, s, r.salt).value;
    var id := ConfigAsSeeded(db.configs, s.jwtSigningKey, r.nonce, ids[0]);
    assert OnlyActive(Seed(db, s, n, r).value.configs, id);
    if OneActivePerKey(db.rules.rows, L.IsActive, L.ScopeOf) {
      var keyIds := UpsertAll(db.keys, KeySpecs(s, ids[2], ids[3], n, r.salt)).1;
      var specs := RuleSpecs(ids[0], keyIds[0]);
      RuleSpecsRepeat(ids[0], keyIds[0]);
      RulesKeepOneActive(db.rules, ids[0], keyIds[0], 0);
      assert specs[0..] == specs;
    }
  }

  ghost predicate OnlyActive(t: Table<J.JwtConfig>, id: int) {
    forall other | other in t.rows :: t.rows[other].active <==> other == id
  }

  lemma {:induction false} RulesKeepOneActive(t: Table<L.Rule>, admin: int, key: int, from: nat)
    requires Numbered(t) && OneActivePerKey(t.rows, L.IsActive, L.ScopeOf) && from <= 3
    ensures OneActivePerKey(UpsertAll(t, RuleSpecs(admin, key)[from..]).0.rows, L.IsActive, L.ScopeOf)
    decreases 3 - from
  {
    var specs := RuleSpecs(admin, key);
    if from < 3 {
      RuleSpecsRepeat(admin, key);
      assert Repeats(specs[from], specs[from]);
      UpsertSettles(t, specs[from], specs[from]);
      PreferringActiveKeepsOne(t, specs[from], specs[from], L.IsActive, L.ScopeOf,
                               if from == 0 then (L.Global, None) else if from == 1 then (L.ApiKey, Some(Str(key))) else (L.Route, Some("/api/echo")));
      assert specs[from..][1..] == specs[from + 1..];
      RulesKeepOneActive(Upsert(t, specs[from]).0, admin, key, from + 1);
    }
  }

  // ---------- The script's session ----------

  class Session {
    var db: Database

    constructor (db: Database)
      ensures this.db == db
    {
      this.db := db;
    }

    /** The loop over USER_SPECS. */
    method UpsertUsers(s: Secrets, salt: int) returns (ids: seq<int>)
      modifies this
      ensures (db.users, ids) == UpsertAll(old(db.users), UserSpecs(s, salt))
      ensures db == old(db).(users := db.users)
    {
      ids := [];
      var specs := UserSpecs(s, salt);
      for i := 0 to |specs|
        invariant db == old(db).(users := db.users)
        invariant UpsertAll(old(db.users), specs).0 == UpsertAll(db.users, specs[i..]).0
        invariant UpsertAll(old(db.users), specs).1 == ids + UpsertAll(db.users, specs[i..]).1
      {
        UpsertNext(db.users, specs, i);
        var (users, id) := Upsert(db.users, specs[i]);
        db := db.(users := users);
        ids := ids + [id];
      }
      assert specs[|specs|..] == [] && ids + [] == ids;
    }

    /** The loop over the old addresses; false when the unique index refuses a new one. */
    method RetireLegacyUsers() returns (ok: bool)
      modifies this
      ensures ok <==> RetireAll(old(db.users), LEGACY_EMAILS).Some?
      ensures ok ==> db == old(db).(users := RetireAll(old(db.users), LEGACY_EMAILS).value)
    {
      for i := 0 to |LEGACY_EMAILS|
        invariant db == old(db).(users := db.users)
        invariant RetireAll(db.users, LEGACY_EMAILS[i..]) == RetireAll(old(db.users), LEGACY_EMAILS)
      {
        assert LEGACY_EMAILS[i..][1..] == LEGACY_EMAILS[i + 1..];
        var next := RetireOne(db.users, LEGACY_EMAILS[i].0, LEGACY_EMAILS[i].1);
        if next.None? {
          return false;
        }
        db := db.(users := next.value);
      }
      return true;
    }

    /** One transaction: committed as a whole, or rolled back as a whole. */
    method SeedDevData(s: Secrets, n: nat, r: Randomness) returns (ok: bool)
      modifies this
      ensures ok <==> Seed(old(db), s, n, r).Some?
      ensures db == if ok then Seed(old(db), s, n, r).value else old(db)
    {
      var before := db;
      var ids := UpsertUsers(s, r.salt);
      ok := RetireLegacyUsers();
      if !ok {
        db := before;
        return;
      }
      if !PrefixesFit(s, n) {
        db := before;
        return false;
      }
      var (keys, keyIds) := UpsertAll(db.keys, KeySpecs(s, ids[2], ids[3], n, r.salt));
      var (rules, _) := UpsertAll(db.rules, RuleSpecs(ids[0], keyIds[0]));
      var (permissions, _) := UpsertAll(db.permissions, PermissionSpecs(ids[0]));
      db := Database(db.users, keys, rules, permissions, UpsertConfig(db.configs, s.jwtSigningKey, r.nonce, ids[0]));
    }
  }
}
