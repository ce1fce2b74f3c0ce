/**
  The proxy's IP decision (reverse-proxy/internal/proxy/ip_blocker.go): the client's
  canonical address against the published list.
*/
module IpBlocker {
  import opened Common

  type Word32 = x: int | 0 <= x < 0x1_0000_0000
  type Word64 = x: int | 0 <= x < 0x1_0000_0000_0000_0000

  /** netip.Addr: an IPv4 address, or an IPv6 address with a zone. */
  datatype Addr = V4(bits: Word32) | V6(high: Word64, low: Word64, zone: string)

  /** ::ffff:0:0/96, the IPv4-mapped addresses (section 2.5.5.2 of RFC 4291). */
  predicate Is4In6(a: Addr) {
    a.V6? && a.high == 0 && a.low / 0x1_0000_0000 == 0xffff
  }

  function Mapped(v4: Word32, zone: string): Addr {
    V6(0, 0xffff_0000_0000 + v4, zone)
  }

  function Unmap(a: Addr): Addr {
    if Is4In6(a) then V4(a.low % 0x1_0000_0000) else a
  }

  function WithoutZone(a: Addr): Addr {
    if a.V6? then a.(zone := "") else a
  }

  function Canonical(a: Addr): Addr {
    WithoutZone(Unmap(a))
  }

  /** Canonicalising twice changes nothing more, and canonical addresses are never mapped. */
  lemma CanonicalIdempotent(a: Addr)
    ensures Canonical(Canonical(a)) == Canonical(a)
    ensures !Is4In6(Canonical(a))
  {
  }

  /** An IPv4 peer and its mapped form are one address, and a zone makes no difference. */
  lemma CanonicalForms(v4: Word32, high: Word64, low: Word64, zone: string, zone': string)
    ensures Canonical(Mapped(v4, zone)) == Canonical(V4(v4)) == V4(v4)
    ensures Canonical(V6(high, low, zone)) == Canonical(V6(high, low, zone'))
  {
  }

  /** The same peer: equal up to the zone, or one the mapped form of the other. */
  predicate SamePeer(a: Addr, b: Addr) {
    || WithoutZone(a) == WithoutZone(b)
    || (a.V4? && WithoutZone(b) == Mapped(a.bits, ""))
    || (b.V4? && WithoutZone(a) == Mapped(b.bits, ""))
  }

  /** Neither mapped nor with a zone. */
  predicate Plain(a: Addr) {
    !Is4In6(a) && (a.V6? ==> a.zone == "")
  }

  /** Two addresses have the same canonical form exactly when they are the same peer. */
  lemma SameCanonicalIff(a: Addr, b: Addr)
    ensures Canonical(a) == Canonical(b) <==> SamePeer(a, b)
  {
    if Is4In6(a) {
      assert a.low == 0xffff * 0x1_0000_0000 + a.low % 0x1_0000_0000;
    }
    if Is4In6(b) {
      assert b.low == 0xffff * 0x1_0000_0000 + b.low % 0x1_0000_0000;
    }
  }

  /** The canonical form is the one plain address of the peer. */
  lemma CanonicalIsThePlainForm(a: Addr, plain: Addr)
    ensures plain == Canonical(a) <==> Plain(plain) && SamePeer(plain, a)
  {
    if Is4In6(a) {
      assert a.low == 0xffff * 0x1_0000_0000 + a.low % 0x1_0000_0000;
    }
  }

  /** The library functions the decision rests on. */
  datatype Library = Library(
    parseAddr: string -> Option<Addr>, trimSpace: string -> string,
    splitHostPort: string -> Option<string>, trimBrackets: string -> string)

  datatype Decision = Blocked | Allowed | ClientIpInvalid | PolicyUnavailable

  /** The peer's host, without port and brackets, as the library reads it. */
  function Host(lib: Library, remoteAddr: string): Option<Addr> {
    var trimmed := lib.trimSpace(remoteAddr);
    var host := if lib.splitHostPort(trimmed).Some? then lib.splitHostPort(trimmed).value else trimmed;
    lib.parseAddr(lib.trimBrackets(host))
  }

  /** The plain address of the peer, whenever its host can be read. */
  method ParseClientIp(lib: Library, remoteAddr: string) returns (address: Option<Addr>)
    ensures address.Some? <==> Host(lib, remoteAddr).Some?
    ensures address.Some? ==> Plain(address.value) && SamePeer(address.value, Host(lib, remoteAddr).value)
    ensures address.Some? ==> address.value == Canonical(Host(lib, remoteAddr).value) == Canonical(address.value)
  {
    var value := lib.trimSpace(remoteAddr);
    var host := lib.splitHostPort(value);
    if host.Some? {
      value := host.value;
    }
    value := lib.trimBrackets(value);
    var parsed := lib.parseAddr(value);
    if parsed.None? {
      return None;
    }
    CanonicalIsThePlainForm(parsed.value, Canonical(parsed.value));
    return Some(Canonical(parsed.value));
  }

  function Listed(lib: Library, raw: string): Option<Addr> {
    match lib.parseAddr(lib.trimSpace(raw))
    case None => None
    case Some(a) => Some(Canonical(a))
  }

  predicate AllParse(lib: Library, list: seq<string>) {
    forall i | 0 <= i < |list| :: Listed(lib, list[i]).Some?
  }

  /** The addresses a list stands for. */
  ghost function Members(lib: Library, list: seq<string>): set<Addr> {
    set raw | raw in list && Listed(lib, raw).Some? :: Listed(lib, raw).value
  }

  /** What a peer is told; `policy` is None when the policy provider fails or has nothing. */
  function Decide(lib: Library, remoteAddr: string, policy: Option<seq<string>>): Decision {
    var host := Host(lib, remoteAddr);
    if host.None? then ClientIpInvalid
    else if policy.None? then PolicyUnavailable
    else Scan(lib, Canonical(host.value), policy.value)
  }

  /** The host is what the library splits off before the port, when it does, without brackets:
      whatever the port, the decision is the same. */
  lemma PortIsIgnored(lib: Library, remoteAddr: string, other: string, policy: Option<seq<string>>)
    ensures var trimmed := lib.trimSpace(remoteAddr);
            && (lib.splitHostPort(trimmed).None? ==> Host(lib, remoteAddr) == lib.parseAddr(lib.trimBrackets(trimmed)))
            && (lib.splitHostPort(trimmed).Some? ==>
                  Host(lib, remoteAddr) == lib.parseAddr(lib.trimBrackets(lib.splitHostPort(trimmed).value)))
    ensures lib.splitHostPort(lib.trimSpace(remoteAddr)).Some?
            && lib.splitHostPort(lib.trimSpace(remoteAddr)) == lib.splitHostPort(lib.trimSpace(other)) ==>
              Decide(lib, remoteAddr, policy) == Decide(lib, other, policy)
  {
  }

  /** Which decision is taken when, each exactly. */
  lemma DecisionIff(lib: Library, remoteAddr: string, policy: Option<seq<string>>)
    ensures var decision := Decide(lib, remoteAddr, policy);
            && (decision.ClientIpInvalid? <==> Host(lib, remoteAddr).None?)
            && (Host(lib, remoteAddr).Some? ==>
                  var client := Canonical(Host(lib, remoteAddr).value);
                  && (policy.None? ==> decision.PolicyUnavailable?)
                  && (policy.Some? ==>
                        && (decision.Blocked? <==> exists i | 0 <= i < |policy.value| ::
                              Listed(lib, policy.value[i]) == Some(client) && AllParse(lib, policy.value[..i]))
                        && (decision.Allowed? <==> AllParse(lib, policy.value) && client !in Members(lib, policy.value))))
  {
    if Host(lib, remoteAddr).Some? && policy.Some? {
      ScanIff(lib, Canonical(Host(lib, remoteAddr).value), policy.value);
    }
  }

  /** Peers whose hosts differ by mapping or zone only are told the same, under any policy. */
  lemma SamePeerSameDecision(lib: Library, remoteAddr: string, other: string, policy: Option<seq<string>>)
    requires Host(lib, remoteAddr).Some? && Host(lib, other).Some?
    requires SamePeer(Host(lib, remoteAddr).value, Host(lib, other).value)
    ensures Decide(lib, remoteAddr, policy) == Decide(lib, other, policy)
  {
    SameCanonicalIff(Host(lib, remoteAddr).value, Host(lib, other).value);
  }

  /** Under a readable policy a peer is blocked exactly when it is the same peer as an entry. */
  lemma BlockedIffListed(lib: Library, remoteAddr: string, list: seq<string>)
    requires Host(lib, remoteAddr).Some? && AllParse(lib, list)
    ensures Decide(lib, remoteAddr, Some(list)) ==
            if exists raw | raw in list :: SamePeer(Host(lib, remoteAddr).value, lib.parseAddr(lib.trimSpace(raw)).value)
            then Blocked else Allowed
  {
    var peer := Host(lib, remoteAddr).value;
    DecisionIsMembership(lib, Canonical(peer), list);
    forall raw | raw in list
      ensures Listed(lib, raw) == Some(Canonical(peer)) <==> SamePeer(peer, lib.parseAddr(lib.trimSpace(raw)).value)
    {
      SameCanonicalIff(peer, lib.parseAddr(lib.trimSpace(raw)).value);
    }
  }

  method IsBlocked(lib: Library, remoteAddr: string, policy: Option<seq<string>>) returns (decision: Decision)
    ensures decision == Decide(lib, remoteAddr, policy)
    ensures decision.ClientIpInvalid? <==> Host(lib, remoteAddr).None?
  {
    var client := ParseClientIp(lib, remoteAddr);
    if client.None? {
      return ClientIpInvalid;
    }
    if policy.None? {
      return PolicyUnavailable;
    }
    var list := policy.value;
    for i := 0 to |list|
      invariant Scan(lib, client.value, list) == Scan(lib, client.value, list[i..])
    {
      var blockedIp := lib.parseAddr(lib.trimSpace(list[i]));
      if blockedIp.None? {
        return PolicyUnavailable;
      }
      if client.value == Canonical(blockedIp.value) {
        return Blocked;
      }
    }
    return Allowed;
  }

  function Scan(lib: Library, client: Addr, list: seq<string>): Decision {
    if list == [] then Allowed
    else if Listed(lib, list[0]).None? then PolicyUnavailable
    else if Listed(lib, list[0]).value == client then Blocked
    else Scan(lib, client, list[1..])
  }

  /** What the scan finds, for every list: blocked when a match comes before any entry that
      does not parse, unavailable when such an entry comes before any match. */
  lemma {:induction false} ScanIff(lib: Library, client: Addr, list: seq<string>)
    ensures Scan(lib, client, list) == Blocked <==>
            exists i | 0 <= i < |list| :: Listed(lib, list[i]) == Some(client) && AllParse(lib, list[..i])
    ensures Scan(lib, client, list) == Allowed <==> AllParse(lib, list) && client !in Members(lib, list)
    ensures Scan(lib, client, list) != ClientIpInvalid
  {
    if list != [] {
      var rest := list[1..];
      ScanIff(lib, client, rest);
      assert forall i | 0 <= i < |rest| :: rest[i] == list[i + 1];
      assert AllParse(lib, list) <==> Listed(lib, list[0]).Some? && AllParse(lib, rest);
      assert Members(lib, list) == Members(lib, rest) + if Listed(lib, list[0]).Some? then {Listed(lib, list[0]).value} else {};
      if Listed(lib, list[0]) == Some(client) {
        assert AllParse(lib, list[..0]);
      } else if Listed(lib, list[0]).Some? {
        forall i | 0 <= i < |rest|
          ensures AllParse(lib, list[..i + 1]) <==> AllParse(lib, rest[..i])
        {
          assert list[..i + 1] == [list[0]] + rest[..i];
          assert forall j | 0 <= j < i :: list[..i + 1][j + 1] == rest[..i][j];
        }
        if i :| 0 <= i < |rest| && Listed(lib, rest[i]) == Some(client) && AllParse(lib, rest[..i]) {
          assert Listed(lib, list[i + 1]) == Some(client) && AllParse(lib, list[..i + 1]);
        }
        if i :| 0 <= i < |list| && Listed(lib, list[i]) == Some(client) && AllParse(lib, list[..i]) {
          assert Listed(lib, rest[i - 1]) == Some(client) && AllParse(lib, rest[..i - 1]);
        }
      } else {
        forall i | 0 <= i < |list| && Listed(lib, list[i]) == Some(client)
          ensures !AllParse(lib, list[..i])
        {
          assert list[..i][0] == list[0];
        }
      }
    }
  }

  /** When every entry parses the decision is membership of the canonical address, so order
      and repetition do not matter. */
  lemma DecisionIsMembership(lib: Library, client: Addr, list: seq<string>)
    requires AllParse(lib, list)
    ensures Scan(lib, client, list) == if client in Members(lib, list) then Blocked else Allowed
  {
  }

  /** The same entries in an order that gets another decision. */
  ghost predicate ReorderedDiffers(lib: Library, client: Addr, list: seq<string>, other: seq<string>) {
    multiset(other) == multiset(list) && Scan(lib, client, other) != Scan(lib, client, list)
  }

  /** Exactly when the order of the entries can matter: some entry matches and some entry
      does not parse. */
  lemma OrderMattersIff(lib: Library, client: Addr, list: seq<string>)
    ensures (exists other :: ReorderedDiffers(lib, client, list, other)) <==> client in Members(lib, list) && !AllParse(lib, list)
  {
    if client in Members(lib, list) && !AllParse(lib, list) {
      var bad :| 0 <= bad < |list| && Listed(lib, list[bad]).None?;
      var hit :| hit in list && Listed(lib, hit) == Some(client);
      var good :| 0 <= good < |list| && list[good] == hit;
      var badFirst := ToFront(list, bad);
      var goodFirst := ToFront(list, good);
      assert ReorderedDiffers(lib, client, list, badFirst) || ReorderedDiffers(lib, client, list, goodFirst);
    } else {
      forall other | multiset(other) == multiset(list)
        ensures Scan(lib, client, other) == Scan(lib, client, list)
      {
        SameEntries(list, other);
        AllParseByEntry(lib, list, other);
        assert Members(lib, other) == Members(lib, list);
        if AllParse(lib, list) {
          DecisionIsMembership(lib, client, list);
          DecisionIsMembership(lib, client, other);
        } else {
          NoMatchUnavailable(lib, client, list);
          NoMatchUnavailable(lib, client, other);
        }
      }
    }
  }

  lemma AllParseByEntry(lib: Library, list: seq<string>, other: seq<string>)
    requires forall raw :: raw in list <==> raw in other
    ensures AllParse(lib, list) <==> AllParse(lib, other)
  {
    if AllParse(lib, list) {
      forall i | 0 <= i < |other| ensures Listed(lib, other[i]).Some? {
        assert other[i] in other;
      }
    }
    if AllParse(lib, other) {
      forall i | 0 <= i < |list| ensures Listed(lib, list[i]).Some? {
        assert list[i] in list;
      }
    }
  }

  lemma NoMatchUnavailable(lib: Library, client: Addr, list: seq<string>)
    requires !AllParse(lib, list) && client !in Members(lib, list)
    ensures Scan(lib, client, list) == PolicyUnavailable
  {
  }

  lemma SameEntries(xs: seq<string>, ys: seq<string>)
    requires multiset(xs) == multiset(ys)
    ensures forall x :: x in xs <==> x in ys
  {
    assert forall x :: x in xs <==> x in multiset(xs);
    assert forall x :: x in ys <==> x in multiset(ys);
  }

  lemma ToFront(list: seq<string>, i: nat) returns (other: seq<string>)
    requires i < |list|
    ensures multiset(other) == multiset(list) && other != [] && other[0] == list[i]
  {
    other := [list[i]] + list[..i] + list[i + 1..];
    assert list == list[..i] + [list[i]] + list[i + 1..];
  }
}
