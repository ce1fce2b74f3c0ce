/**
  The development seed (scripts/seed_dev_data.py): one transaction of upserts over five
  tables. Running it again with the same secrets changes nothing but the nonce of the
  re-encrypted signing key.
*/
module Seeding {
  import opened Common
  import opened ActiveTable
  import opened Upserts
  import J = JwtConfigs
  import L = RateLimitRules
  import R = RoutePermissions

  // ---------- Rows and secrets ----------

  /** A salted password hash, or a string that is not one. Two hashes of one password
      differ in the salt; verification is exact. */
  datatype PasswordHash = Salted(password: string, salt: int) | Unreadable

  predicate Verifies(password: string, h: PasswordHash) {
    h.Salted? && h.password == password
  }

  datatype Role = Admin | Viewer | ApiConsumer

  datatype User = User(email: string, fullName: string, hash: PasswordHash, isActive: bool, role: Role)

  datatype ApiKey = ApiKey(
    owner: int, name: string, hash: PasswordHash, prefix: string, scopes: seq<string>, active: bool,
    expiresAt: Option<int>, lastUsedAt: Option<int>)

  datatype Secrets = Secrets(
    adminPassword: string, userPassword: string, consumer1Active: string, consumer1Revoked: string,
    consumer2Active: string, jwtSigningKey: string)

  datatype Database = Database(
    users: Table<User>, keys: Table<ApiKey>, rules: Table<L.Rule>, permissions: Table<R.Permission>,
    configs: Table<J.JwtConfig>)

  // ---------- Users ----------

  datatype UserSeed = UserSeed(email: string, fullName: string, role: Role)

  const USER_SPECS := [
    UserSeed("admin@aegis.dev", "Aegis Development Administrator", Admin),
    UserSeed("viewer@aegis.dev", "Aegis Development Viewer", Viewer),
    UserSeed("consumer1@aegis.dev", "Aegis Development Consumer One", ApiConsumer),
    UserSeed("consumer2@aegis.dev", "Aegis Development Consumer Two", ApiConsumer)]

  const LEGACY_EMAILS := [
    ("admin@aegis.local", "legacy-admin@aegis.dev"),
    ("viewer@aegis.local", "legacy-viewer@aegis.dev"),
    ("consumer1@aegis.local", "legacy-consumer1@aegis.dev"),
    ("consumer2@aegis.local", "legacy-consumer2@aegis.dev")]

  /** A hash that already verifies is kept; another one is replaced. */
  function Rehashed(password: string, salt: int, h: PasswordHash): PasswordHash {
    if Verifies(password, h) then h else Salted(password, salt)
  }

  function UserSpec(u: UserSeed, password: string, salt: int): Spec<User> {
    Spec((r: User) => r.email == u.email, (r: User) => true,
         User(u.email, u.fullName, Salted(password, salt), true, u.role),
         (r: User) => r.(fullName := u.fullName, isActive := true, role := u.role, hash := Rehashed(password, salt, r.hash)))
  }

  function UserSpecs(s: Secrets, salt: int): (specs: seq<Spec<User>>)
    ensures |specs| == |USER_SPECS|
  {
    seq(|USER_SPECS|, i requires 0 <= i < |USER_SPECS| =>
      UserSpec(USER_SPECS[i], if USER_SPECS[i].role == Admin then s.adminPassword else s.userPassword, salt))
  }

  lemma UserEmailsDistinct()
    ensures forall i, j | 0 <= i < |USER_SPECS| && 0 <= j < |USER_SPECS| && i != j :: USER_SPECS[i].email != USER_SPECS[j].email
  {
  }

  lemma UserSpecRepeats(u: UserSeed, password: string, salt: int, salt': int)
    ensures Repeats(UserSpec(u, password, salt), UserSpec(u, password, salt'))
  {
  }

  lemma UserSpecsRepeat(s: Secrets, salt: int, salt': int)
    ensures RepeatsAll(UserSpecs(s, salt), UserSpecs(s, salt')) && DisjointAll(UserSpecs(s, salt), UserSpecs(s, salt'))
  {
    forall i | 0 <= i < |USER_SPECS|
      ensures Repeats(UserSpecs(s, salt)[i], UserSpecs(s, salt')[i])
    {
      UserSpecRepeats(USER_SPECS[i], if USER_SPECS[i].role == Admin then s.adminPassword else s.userPassword, salt, salt');
    }
    UserEmailsDistinct();
  }

  // ---------- Retiring the old addresses ----------

  function Decimal(n: nat): (digits: string)
    ensures digits != [] && '0' <= digits[0] <= '9'
  {
    if n < 10 then [(n + 48) as char] else Decimal(n / 10) + [(n % 10 + 48) as char]
  }

  /** str(id) */
  function Str(id: int): string {
    if id < 0 then "-" + Decimal(-id) else Decimal(id)
  }

  function NumberedLegacy(id: int): string {
    "legacy-" + Str(id) + "@aegis.dev"
  }

  function WithEmail(t: Table<User>, email: string): set<int> {
    set id | id in t.rows && t.rows[id].email == email
  }

  predicate Blank(text: string) {
    forall i | 0 <= i < |text| :: text[i] == ' '
  }

  /** What a character column makes of a text: longer texts are refused, unless all that is too
      much is blanks, which are cut off. */
  function Column(text: string, width: nat): Option<string> {
    if |text| <= width then Some(text) else if Blank(text[width..]) then Some(text[..width]) else None
  }

  /** What fits is stored, and what is stored is the start of the text, up to blanks. */
  lemma ColumnIs(text: string, width: nat)
    ensures Column(text, width).Some? <==> forall i | width <= i < |text| :: text[i] == ' '
    ensures Column(text, width).Some? ==>
              Column(text, width).value <= text && |Column(text, width).value| == if |text| < width then |text| else width
  {
    if |text| > width {
      assert Blank(text[width..]) <==> forall i | width <= i < |text| :: text[i] == ' ' by {
        assert forall i | width <= i < |text| :: text[i] == text[width..][i - width];
        assert forall i | 0 <= i < |text| - width :: text[width..][i] == text[i + width];
      }
    }
  }

  /** The width of users.full_name. */
  const NAME_WIDTH := 255

  function RetiredName(u: User): Option<string> { Column("Retired " + u.fullName, NAME_WIDTH) }

  function Retired(u: User, email: string): User
    requires RetiredName(u).Some?
  {
    u.(email := email, fullName := RetiredName(u).value, isActive := false)
  }

  /** None is the unique index refusing the new address, or the column refusing the new name;
      both abort the whole run. */
  function RetireOne(t: Table<User>, former: string, renamed: string): Option<Table<User>> {
    var legacy := WithEmail(t, former);
    if legacy == {} then Some(t)
    else
      var id := Min(legacy);
      var email := if WithEmail(t, renamed) - {id} != {} then NumberedLegacy(id) else renamed;
      if WithEmail(t, email) - {id} != {} || RetiredName(t.rows[id]).None? then None
      else Some(t.(rows := t.rows[id := Retired(t.rows[id], email)]))
  }

  function RetireAll(t: Table<User>, emails: seq<(string, string)>): Option<Table<User>>
    decreases |emails|
  {
    if emails == [] then Some(t)
    else match RetireOne(t, emails[0].0, emails[0].1) {
      case None => None
      case Some(next) => RetireAll(next, emails[1..])
    }
  }

  ghost predicate UniqueEmails(t: Table<User>) {
    forall id, id' | id in t.rows && id' in t.rows && t.rows[id].email == t.rows[id'].email :: id == id'
  }

  /** Every address that a retired user can be given. */
  ghost predicate IsRetiredEmail(e: string) {
    (exists i | 0 <= i < |LEGACY_EMAILS| :: e == LEGACY_EMAILS[i].1) || exists id :: e == NumberedLegacy(id)
  }

  /** Retired addresses are neither old ones nor the seeded users'. */
  lemma RetiredEmailsApart(e: string)
    requires IsRetiredEmail(e)
    ensures forall i | 0 <= i < |LEGACY_EMAILS| :: e != LEGACY_EMAILS[i].0
    ensures forall i | 0 <= i < |USER_SPECS| :: e != USER_SPECS[i].email
  {
    assert e != [] && e[0] == 'l' && e[|e| - 1] == 'v';
    assert forall i | 0 <= i < |LEGACY_EMAILS| :: var former := LEGACY_EMAILS[i].0; former[|former| - 1] == 'l';
    assert forall i | 0 <= i < |USER_SPECS| :: USER_SPECS[i].email[0] != 'l';
  }

  lemma RetireOneEffect(t: Table<User>, i: nat)
    requires i < |LEGACY_EMAILS| && UniqueEmails(t)
    requires RetireOne(t, LEGACY_EMAILS[i].0, LEGACY_EMAILS[i].1).Some?
    ensures var t' := RetireOne(t, LEGACY_EMAILS[i].0, LEGACY_EMAILS[i].1).value;
            && UniqueEmails(t') && WithEmail(t', LEGACY_EMAILS[i].0) == {} && t'.nextId == t.nextId && t'.rows.Keys == t.rows.Keys
            && forall id | id in t.rows ::
                 || t'.rows[id] == t.rows[id]
                 || (t.rows[id].email == LEGACY_EMAILS[i].0 && IsRetiredEmail(t'.rows[id].email)
                     && !t'.rows[id].isActive && Column("Retired " + t.rows[id].fullName, NAME_WIDTH) == Some(t'.rows[id].fullName)
                     && t'.rows[id].role == t.rows[id].role && t'.rows[id].hash == t.rows[id].hash)
  {
    var former, renamed := LEGACY_EMAILS[i].0, LEGACY_EMAILS[i].1;
    var t' := RetireOne(t, former, renamed).value;
    var legacy := WithEmail(t, former);
    if legacy != {} {
      var id := Min(legacy);
      var email := t'.rows[id].email;
      assert email == renamed || email == NumberedLegacy(id);
      assert IsRetiredEmail(email);
      RetiredEmailsApart(email);
      forall other | other in t.rows && other != id
        ensures t.rows[other].email != email && t.rows[other].email != former
      {
        assert other !in WithEmail(t, email) - {id};
      }
    }
  }

  /** The renamed address is preferred; the numbered one is only for when that is taken. */
  lemma RetirementPrefersTheName(t: Table<User>, i: nat, id: int)
    requires i < |LEGACY_EMAILS| && UniqueEmails(t) && id in t.rows && t.rows[id].email == LEGACY_EMAILS[i].0
    requires RetireOne(t, LEGACY_EMAILS[i].0, LEGACY_EMAILS[i].1).Some?
    ensures var after := RetireOne(t, LEGACY_EMAILS[i].0, LEGACY_EMAILS[i].1).value;
            id in after.rows && after.rows[id].email ==
              if HasEmail(t, LEGACY_EMAILS[i].1) then NumberedLegacy(id) else LEGACY_EMAILS[i].1
  {
    var former, renamed := LEGACY_EMAILS[i].0, LEGACY_EMAILS[i].1;
    assert id in WithEmail(t, former);
    assert Min(WithEmail(t, former)) == id;
    assert IsRetiredEmail(renamed);
    RetiredEmailsApart(renamed);
    WithEmailIff(t, renamed, id);
  }

  /** Nobody has one of the first `n` old addresses any more. */
  ghost predicate NoneLeft(t: Table<User>, n: nat) {
    forall i | 0 <= i < n && i < |LEGACY_EMAILS| :: WithEmail(t, LEGACY_EMAILS[i].0) == {}
  }

  /** Retirement touches only rows with an old address, gives them a retired one, and leaves
      no old address behind. */
  lemma {:induction false} RetireAllEffect(t: Table<User>, from: nat, spec: Spec<User>, seed: UserSeed, password: string, salt: int, id: int)
    requires from <= |LEGACY_EMAILS| && UniqueEmails(t) && NoneLeft(t, from) && Numbered(t)
    requires RetireAll(t, LEGACY_EMAILS[from..]).Some?
    requires seed in USER_SPECS && spec == UserSpec(seed, password, salt) && Settled(t, spec, id)
    ensures var t' := RetireAll(t, LEGACY_EMAILS[from..]).value;
            NoneLeft(t', |LEGACY_EMAILS|) && UniqueEmails(t') && Settled(t', spec, id) && Numbered(t')
    decreases |LEGACY_EMAILS| - from
  {
    if from < |LEGACY_EMAILS| {
      var next := RetireOne(t, LEGACY_EMAILS[from].0, LEGACY_EMAILS[from].1).value;
      RetireOneEffect(t, from);
      RetireKeepsSeeded(t, from, spec, seed, password, salt, id);
      RetireKeepsNoneLeft(t, from);
      assert LEGACY_EMAILS[from..][1..] == LEGACY_EMAILS[from + 1..];
      RetireAllEffect(next, from + 1, spec, seed, password, salt, id);
    }
  }

  lemma RetireKeepsNoneLeft(t: Table<User>, i: nat)
    requires i < |LEGACY_EMAILS| && UniqueEmails(t) && NoneLeft(t, i)
    requires RetireOne(t, LEGACY_EMAILS[i].0, LEGACY_EMAILS[i].1).Some?
    ensures NoneLeft(RetireOne(t, LEGACY_EMAILS[i].0, LEGACY_EMAILS[i].1).value, i + 1)
  {
    RetireOneEffect(t, i);
    var t' := RetireOne(t, LEGACY_EMAILS[i].0, LEGACY_EMAILS[i].1).value;
    forall j | 0 <= j < i
      ensures WithEmail(t', LEGACY_EMAILS[j].0) == {}
    {
      forall id | id in t'.rows
        ensures t'.rows[id].email != LEGACY_EMAILS[j].0
      {
        assert id !in WithEmail(t, LEGACY_EMAILS[j].0);
        if t'.rows[id] != t.rows[id] {
          RetiredEmailsApart(t'.rows[id].email);
        }
      }
    }
  }

  lemma RetireKeepsSeeded(t: Table<User>, i: nat, spec: Spec<User>, seed: UserSeed, password: string, salt: int, id: int)
    requires i < |LEGACY_EMAILS| && UniqueEmails(t)
    requires RetireOne(t, LEGACY_EMAILS[i].0, LEGACY_EMAILS[i].1).Some?
    requires seed in USER_SPECS && spec == UserSpec(seed, password, salt) && Settled(t, spec, id)
    ensures Settled(RetireOne(t, LEGACY_EMAILS[i].0, LEGACY_EMAILS[i].1).value, spec, id)
  {
    var legacy := WithEmail(t, LEGACY_EMAILS[i].0);
    if legacy != {} {
      var t' := RetireOne(t, LEGACY_EMAILS[i].0, LEGACY_EMAILS[i].1).value;
      var other := Min(legacy);
      RetireOneEffect(t, i);
      var row := t'.rows[other];
      assert IsRetiredEmail(row.email) by {
        assert row.email == LEGACY_EMAILS[i].1 || row.email == NumberedLegacy(other);
      }
      RetiredEmailsApart(row.email);
      SeededNotLegacy(seed, i);
      assert t'.rows == t.rows[other := row];
      WriteElsewhere(t, spec, id, other, row, t.nextId);
    }
  }

  lemma SeededNotLegacy(seed: UserSeed, i: nat)
    requires seed in USER_SPECS && i < |LEGACY_EMAILS|
    ensures seed.email != LEGACY_EMAILS[i].0
  {
  }

  lemma {:induction false} NoneLeftIsNoop(t: Table<User>, from: nat)
    requires from <= |LEGACY_EMAILS| && NoneLeft(t, |LEGACY_EMAILS|)
    ensures RetireAll(t, LEGACY_EMAILS[from..]) == Some(t)
    decreases |LEGACY_EMAILS| - from
  {
    if from < |LEGACY_EMAILS| {
      assert LEGACY_EMAILS[from..][1..] == LEGACY_EMAILS[from + 1..];
      NoneLeftIsNoop(t, from + 1);
    }
  }

  /** User upserts keep addresses unique: they insert only an address that nobody has. */
  lemma UserUpsertKeepsUnique(t: Table<User>, seed: UserSeed, password: string, salt: int)
    requires UniqueEmails(t) && Numbered(t)
    ensures UniqueEmails(Upsert(t, UserSpec(seed, password, salt)).0)
  {
    PickMatches(t, UserSpec(seed, password, salt));
  }

  lemma {:induction false} UserUpsertsKeepUnique(t: Table<User>, s: Secrets, salt: int, from: nat)
    requires from <= |USER_SPECS| && UniqueEmails(t) && Numbered(t)
    ensures UniqueEmails(UpsertAll(t, UserSpecs(s, salt)[from..]).0)
    decreases |USER_SPECS| - from
  {
    var specs := UserSpecs(s, salt);
    if from < |USER_SPECS| {
      var password := if USER_SPECS[from].role == Admin then s.adminPassword else s.userPassword;
      assert specs[from..][0] == UserSpec(USER_SPECS[from], password, salt) && specs[from..][1..] == specs[from + 1..];
      UserUpsertKeepsUnique(t, USER_SPECS[from], password, salt);
      UserSpecRepeats(USER_SPECS[from], password, salt, salt);
      UpsertSettles(t, specs[from], specs[from]);
      UserUpsertsKeepUnique(Upsert(t, specs[from]).0, s, salt, from + 1);
    }
  }

  // ---------- When the retirements go through ----------

  lemma {:induction false} DecimalInjective(m: nat, n: nat)
    requires Decimal(m) == Decimal(n)
    ensures m == n
  {
    var digits := Decimal(m);
    if m >= 10 && n >= 10 {
      assert digits[..|digits| - 1] == Decimal(m / 10) == Decimal(n / 10);
      DecimalInjective(m / 10, n / 10);
    } else if m < 10 && n < 10 {
      assert digits[0] == (m + 48) as char == (n + 48) as char;
    }
  }

  /** What a number is written as. */
  function Number(digits: string): int {
    if digits == [] then 0 else 10 * Number(digits[..|digits| - 1]) + (digits[|digits| - 1] as int - '0' as int)
  }

  /** Numbers read back as what was written, and only negative ones are written with a sign. */
  lemma {:induction false} DecimalReadsBack(n: nat)
    ensures Number(Decimal(n)) == n
  {
    var digits := Decimal(n);
    if n >= 10 {
      DecimalReadsBack(n / 10);
      assert digits[..|digits| - 1] == Decimal(n / 10);
    } else {
      assert digits[..0] == [];
    }
  }

  lemma StrReadsBack(id: int)
    ensures id >= 0 ==> Str(id) != [] && Str(id)[0] != '-' && Number(Str(id)) == id
    ensures id < 0 ==> Str(id) != [] && Str(id)[0] == '-' && Number(Str(id)[1..]) == -id
  {
    if id >= 0 {
      DecimalReadsBack(id);
    } else {
      DecimalReadsBack(-id);
      assert Str(id)[1..] == Decimal(-id);
    }
  }

  /** Two users are never retired to the same numbered address. */
  lemma NumberedInjective(id: int, other: int)
    requires NumberedLegacy(id) == NumberedLegacy(other)
    ensures id == other
  {
    var e := NumberedLegacy(id);
    assert e[7..|e| - 10] == Str(id) == Str(other);
    if id >= 0 && other >= 0 {
      DecimalInjective(id, other);
    } else if id < 0 && other < 0 {
      assert Str(id)[1..] == Decimal(-id) == Decimal(-other);
      DecimalInjective(-id, -other);
    }
  }

  /** Nor is a numbered address one of the named ones. */
  lemma NumberedNotNamed(id: int, i: nat)
    requires i < |LEGACY_EMAILS|
    ensures NumberedLegacy(id) != LEGACY_EMAILS[i].1
  {
    assert NumberedLegacy(id)[7] == Str(id)[0];
    assert Str(id)[0] == '-' || '0' <= Str(id)[0] <= '9';
    assert LEGACY_EMAILS[i].1[7] in {'a', 'v', 'c'};
  }

  lemma NamedDistinct(i: nat, j: nat)
    requires i < |LEGACY_EMAILS| && j < |LEGACY_EMAILS| && i != j
    ensures LEGACY_EMAILS[i].0 != LEGACY_EMAILS[j].0 && LEGACY_EMAILS[i].1 != LEGACY_EMAILS[j].1
  {
    assert forall k | 0 <= k < |LEGACY_EMAILS| :: LEGACY_EMAILS[k].0[0] == (if k == 0 then 'a' else if k == 1 then 'v' else 'c');
    assert forall k | 0 <= k < |LEGACY_EMAILS| :: LEGACY_EMAILS[k].1[7] == (if k == 0 then 'a' else if k == 1 then 'v' else 'c');
    assert LEGACY_EMAILS[2].0[8] == '1' && LEGACY_EMAILS[3].0[8] == '2';
    assert LEGACY_EMAILS[2].1[15] == '1' && LEGACY_EMAILS[3].1[15] == '2';
  }

  ghost predicate HasEmail(t: Table<User>, email: string) {
    exists id | id in t.rows :: t.rows[id].email == email
  }

  /** The user `id` has the i-th old address and cannot be retired: both new addresses it
      could get are taken, or its name leaves no room for the mark of a retired one. */
  ghost predicate Stranded(t: Table<User>, i: nat, id: int)
    requires i < |LEGACY_EMAILS|
  {
    && id in t.rows && t.rows[id].email == LEGACY_EMAILS[i].0
    && ((HasEmail(t, LEGACY_EMAILS[i].1) && HasEmail(t, NumberedLegacy(id))) || RetiredName(t.rows[id]).None?)
  }

  ghost predicate NoneStranded(t: Table<User>, from: nat) {
    forall i, id | from <= i < |LEGACY_EMAILS| :: !Stranded(t, i, id)
  }

  lemma WithEmailIff(t: Table<User>, email: string, id: int)
    requires id in t.rows && t.rows[id].email != email
    ensures WithEmail(t, email) - {id} != {} <==> HasEmail(t, email)
  {
    if other :| other in t.rows && t.rows[other].email == email {
      assert other in WithEmail(t, email) - {id};
    }
    if WithEmail(t, email) - {id} != {} {
      var other := Choose(WithEmail(t, email) - {id});
      assert t.rows[other].email == email;
    }
  }

  lemma RetireOneSucceedsIff(t: Table<User>, i: nat)
    requires i < |LEGACY_EMAILS| && UniqueEmails(t)
    ensures RetireOne(t, LEGACY_EMAILS[i].0, LEGACY_EMAILS[i].1).Some? <==> forall id :: !Stranded(t, i, id)
  {
    var former, renamed := LEGACY_EMAILS[i].0, LEGACY_EMAILS[i].1;
    var legacy := WithEmail(t, former);
    forall id | id in t.rows && t.rows[id].email == former ensures id in legacy {}
    if legacy != {} {
      var id := Min(legacy);
      forall other | Stranded(t, i, other) ensures Stranded(t, i, id) {
        assert other == id;
      }
      assert IsRetiredEmail(renamed) && IsRetiredEmail(NumberedLegacy(id));
      RetiredEmailsApart(renamed);
      RetiredEmailsApart(NumberedLegacy(id));
      WithEmailIff(t, renamed, id);
      WithEmailIff(t, NumberedLegacy(id), id);
      assert RetireOne(t, former, renamed).Some? <==> !Stranded(t, i, id);
    }
  }

  /** Writing one user's address leaves the question who has another address as it was. */
  lemma EmailElsewhere(t: Table<User>, id: int, row: User, nextId: int, email: string)
    requires row.email != email && (id in t.rows ==> t.rows[id].email != email)
    ensures HasEmail(Table(t.rows[id := row], nextId), email) <==> HasEmail(t, email)
  {
    var after := Table(t.rows[id := row], nextId);
    if other :| other in t.rows && t.rows[other].email == email {
      assert after.rows[other].email == email;
    }
    if other :| other in after.rows && after.rows[other].email == email {
      assert t.rows[other].email == email;
    }
  }

  /** Retiring one user strands no other and helps no other. */
  lemma RetireOneStrandsNoOther(t: Table<User>, i: nat, j: nat, other: int)
    requires i < |LEGACY_EMAILS| && j < |LEGACY_EMAILS| && i != j && UniqueEmails(t)
    requires RetireOne(t, LEGACY_EMAILS[i].0, LEGACY_EMAILS[i].1).Some?
    ensures Stranded(RetireOne(t, LEGACY_EMAILS[i].0, LEGACY_EMAILS[i].1).value, j, other) <==> Stranded(t, j, other)
  {
    var legacy := WithEmail(t, LEGACY_EMAILS[i].0);
    if legacy != {} {
      var t' := RetireOne(t, LEGACY_EMAILS[i].0, LEGACY_EMAILS[i].1).value;
      var id := Min(legacy);
      var row := t'.rows[id];
      assert t' == Table(t.rows[id := row], t.nextId);
      NamedDistinct(i, j);
      NumberedNotNamed(id, j);
      NumberedNotNamed(other, i);
      assert row.email == LEGACY_EMAILS[i].1 || row.email == NumberedLegacy(id);
      assert IsRetiredEmail(row.email) && IsRetiredEmail(LEGACY_EMAILS[j].1) && IsRetiredEmail(NumberedLegacy(other));
      RetiredEmailsApart(row.email);
      RetiredEmailsApart(LEGACY_EMAILS[j].1);
      RetiredEmailsApart(NumberedLegacy(other));
      EmailElsewhere(t, id, row, t.nextId, LEGACY_EMAILS[j].1);
      if other != id {
        if NumberedLegacy(id) == NumberedLegacy(other) {
          NumberedInjective(id, other);
        }
        EmailElsewhere(t, id, row, t.nextId, NumberedLegacy(other));
      }
    }
  }

  lemma {:induction false} RetireAllSucceedsIff(t: Table<User>, from: nat)
    requires from <= |LEGACY_EMAILS| && UniqueEmails(t)
    ensures RetireAll(t, LEGACY_EMAILS[from..]).Some? <==> NoneStranded(t, from)
    decreases |LEGACY_EMAILS| - from
  {
    if from < |LEGACY_EMAILS| {
      assert LEGACY_EMAILS[from..][1..] == LEGACY_EMAILS[from + 1..];
      RetireOneSucceedsIff(t, from);
      var retired := RetireOne(t, LEGACY_EMAILS[from].0, LEGACY_EMAILS[from].1);
      if retired.Some? {
        RetireOneEffect(t, from);
        RetireAllSucceedsIff(retired.value, from + 1);
        forall j, other | from + 1 <= j < |LEGACY_EMAILS|
          ensures Stranded(retired.value, j, other) <==> Stranded(t, j, other)
        {
          RetireOneStrandsNoOther(t, from, j, other);
        }
      }
    }
  }

  /** Upserting a seeded user strands nobody either. */
  lemma UserUpsertStrandsNobody(t: Table<User>, seed: UserSeed, password: string, salt: int, j: nat, other: int)
    requires seed in USER_SPECS && Numbered(t) && j < |LEGACY_EMAILS|
    ensures Stranded(Upsert(t, UserSpec(seed, password, salt)).0, j, other) <==> Stranded(t, j, other)
  {
    var (after, id) := Upsert(t, UserSpec(seed, password, salt));
    PickMatches(t, UserSpec(seed, password, salt));
    var row := after.rows[id];
    assert after == Table(t.rows[id := row], after.nextId) && row.email == seed.email;
    SeededNotLegacy(seed, j);
    assert IsRetiredEmail(LEGACY_EMAILS[j].1) && IsRetiredEmail(NumberedLegacy(other));
    RetiredEmailsApart(LEGACY_EMAILS[j].1);
    RetiredEmailsApart(NumberedLegacy(other));
    EmailElsewhere(t, id, row, after.nextId, LEGACY_EMAILS[j].1);
    EmailElsewhere(t, id, row, after.nextId, NumberedLegacy(other));
  }

  lemma {:induction false} UserUpsertsStrandNobody(t: Table<User>, s: Secrets, salt: int, from: nat, j: nat, other: int)
    requires from <= |USER_SPECS| && Numbered(t) && j < |LEGACY_EMAILS|
    ensures Stranded(UpsertAll(t, UserSpecs(s, salt)[from..]).0, j, other) <==> Stranded(t, j, other)
    decreases |USER_SPECS| - from
  {
    var specs := UserSpecs(s, salt);
    if from < |USER_SPECS| {
      var password := if USER_SPECS[from].role == Admin then s.adminPassword else s.userPassword;
      assert specs[from] == UserSpec(USER_SPECS[from], password, salt);
      UserSpecRepeats(USER_SPECS[from], password, salt, salt);
      UpsertSettles(t, specs[from], specs[from]);
      UserUpsertStrandsNobody(t, USER_SPECS[from], password, salt, j, other);
      UpsertNext(t, specs, from);
      UserUpsertsStrandNobody(Upsert(t, specs[from]).0, s, salt, from + 1, j, other);
    }
  }

  /** The users' part goes through exactly when nobody is stranded to begin with. */
  lemma SeedUsersSucceedsIff(t: Table<User>, s: Secrets, salt: int)
    requires UniqueEmails(t) && Numbered(t)
    ensures SeedUsers(t, s, salt).Some? <==> NoneStranded(t, 0)
  {
    var specs := UserSpecs(s, salt);
    var users := UpsertAll(t, specs).0;
    assert specs[0..] == specs && LEGACY_EMAILS[0..] == LEGACY_EMAILS;
    UserUpsertsKeepUnique(t, s, salt, 0);
    RetireAllSucceedsIff(users, 0);
    forall j, other | 0 <= j < |LEGACY_EMAILS|
      ensures Stranded(users, j, other) <==> Stranded(t, j, other)
    {
      UserUpsertsStrandNobody(t, s, salt, 0, j, other);
    }
  }

  // ---------- The users' part as a whole ----------

  /** The four users, then the retirements: the table and the users' ids. */
  function SeedUsers(t: Table<User>, s: Secrets, salt: int): (result: Option<(Table<User>, seq<int>)>)
    ensures result.Some? ==> |result.value.1| == |USER_SPECS|
  {
    var (users, ids) := UpsertAll(t, UserSpecs(s, salt));
    match RetireAll(users, LEGACY_EMAILS) {
      case None => None
      case Some(retired) => Some((retired, ids))
    }
  }

  /** A second run of the users' part finds the same users and changes nothing. */
  lemma SeedUsersIdempotent(t: Table<User>, s: Secrets, salt: int, salt': int)
    requires UniqueEmails(t) && Numbered(t)
    ensures SeedUsers(t, s, salt).Some? ==>
              var users := SeedUsers(t, s, salt).value.0;
              SeedUsers(users, s, salt') == SeedUsers(t, s, salt) && UniqueEmails(users) && Numbered(users)
  {
    if SeedUsers(t, s, salt).None? {
      return;
    }
    var specs, again := UserSpecs(s, salt), UserSpecs(s, salt');
    var (users, ids) := UpsertAll(t, specs);
    var retired := SeedUsers(t, s, salt).value.0;
    UserSpecsRepeat(s, salt, salt');
    UpsertAllSettles(t, specs, again);
    assert specs[0..] == specs && LEGACY_EMAILS[0..] == LEGACY_EMAILS;
    UserUpsertsKeepUnique(t, s, salt, 0);
    forall i | 0 <= i < |USER_SPECS|
      ensures Settled(retired, again[i], ids[i]) && NoneLeft(retired, |LEGACY_EMAILS|) && UniqueEmails(retired) && Numbered(retired)
    {
      var password := if USER_SPECS[i].role == Admin then s.adminPassword else s.userPassword;
      RetireAllEffect(users, 0, again[i], USER_SPECS[i], password, salt', ids[i]);
    }
    assert Settled(retired, again[0], ids[0]);
    SettledAllIsNoop(retired, again, ids);
    NoneLeftIsNoop(retired, 0);
  }
}
