/**
 * `getAvailabilityZone`: find the zone of a table entry whose subnet contains
 * the client's IP. The table is a Go map, so the entries are visited in an
 * unspecified order and, when subnets overlap, any containing entry may win.
 */
module Resolver {
  import opened Wrappers
  import opened Cidr
  import opened AffinityTable

  /** `net.ParseIP`: the text of an IP to its address bytes (IPv4 in its 4-byte form), or None. */
  type IpParser = string -> Option<Address>

  datatype LookupError = NoZoneFound(ip: string)

  /**
   * The table key `key` parses as a block that contains the client IP. An IP
   * that does not parse is contained in no block.
   */
  predicate Covers(key: string, ip: string, parseCidr: CidrParser, parseIp: IpParser)
  {
    && parseCidr(key).Some?
    && parseIp(ip).Some?
    && Contains(parseCidr(key).value, parseIp(ip).value)
  }

  /** The keys of `t` whose block contains the client IP. */
  function CoveringKeys(t: map<string, string>, ip: string, parseCidr: CidrParser, parseIp: IpParser)
    : set<string>
  {
    set k | k in t && Covers(k, ip, parseCidr, parseIp)
  }

  /**
   * The outcomes the lookup can have over all iteration orders: the zone of
   * some covering entry, or NoZoneFound exactly when no entry covers the IP.
   */
  predicate Admissible(t: map<string, string>, ip: string, parseCidr: CidrParser, parseIp: IpParser,
                       r: Result<string, LookupError>)
  {
    match r
    case Success(z) => exists k :: k in CoveringKeys(t, ip, parseCidr, parseIp) && t[k] == z
    case Failure(e) => CoveringKeys(t, ip, parseCidr, parseIp) == {} && e == NoZoneFound(ip)
  }

  /**
   * The search loop. Each iteration takes an arbitrary key not yet visited,
   * as ranging over a Go map does; a key that does not parse is skipped, and
   * the first key whose block contains the IP ends the search.
   */
  method GetAvailabilityZone(t: map<string, string>, ip: string, parseCidr: CidrParser, parseIp: IpParser)
    returns (r: Result<string, LookupError>)
    ensures Admissible(t, ip, parseCidr, parseIp, r)
  {
    var unvisited := t.Keys;
    while unvisited != {}
      invariant unvisited <= t.Keys
      invariant forall k :: k in t && k !in unvisited ==> !Covers(k, ip, parseCidr, parseIp)
      decreases unvisited
    {
      var cidr :| cidr in unvisited;
      var az := t[cidr];
      var subnet := parseCidr(cidr);
      if subnet.Some? {
        var addr := parseIp(ip);
        if addr.Some? && Contains(subnet.value, addr.value) {
          return Success(az);
        }
      }
      unvisited := unvisited - {cidr};
    }
    r := Failure(NoZoneFound(ip));
  }

  /** Lookup fails exactly when no entry covers the IP: on an empty table, and for an IP that does not parse. */
  lemma NotFoundExactly(t: map<string, string>, ip: string, parseCidr: CidrParser, parseIp: IpParser)
    ensures (t == map[] || parseIp(ip).None?) ==> CoveringKeys(t, ip, parseCidr, parseIp) == {}
    ensures forall r :: Admissible(t, ip, parseCidr, parseIp, r) ==>
      (r.Failure? <==> forall k :: k in t ==> !Covers(k, ip, parseCidr, parseIp))
  {
    forall r | Admissible(t, ip, parseCidr, parseIp, r) && r.Failure?
      ensures forall k :: k in t ==> !Covers(k, ip, parseCidr, parseIp)
    {
      forall k | k in t ensures !Covers(k, ip, parseCidr, parseIp) {
        assert k !in CoveringKeys(t, ip, parseCidr, parseIp);
      }
    }
  }

  /**
   * When every entry that covers the IP names the same zone `z` (in particular
   * when subnets do not overlap), the lookup has exactly one outcome.
   */
  lemma {:induction false} AgreeingEntriesDetermineZone(t: map<string, string>, ip: string,
                                                         parseCidr: CidrParser, parseIp: IpParser, z: string)
    requires CoveringKeys(t, ip, parseCidr, parseIp) != {}
    requires forall k :: k in CoveringKeys(t, ip, parseCidr, parseIp) ==> t[k] == z
    ensures forall r :: Admissible(t, ip, parseCidr, parseIp, r) <==> r == Success(z)
  {
  }

  /**
   * Overlapping subnets are legal and carry no longest-prefix rule: if two
   * entries cover the IP, the zone of either one is a possible answer.
   */
  lemma {:induction false} OverlapAdmitsEitherZone(t: map<string, string>, ip: string,
                                                   parseCidr: CidrParser, parseIp: IpParser, k1: string, k2: string)
    requires k1 in t && k2 in t
    requires Covers(k1, ip, parseCidr, parseIp) && Covers(k2, ip, parseCidr, parseIp)
    ensures Admissible(t, ip, parseCidr, parseIp, Success(t[k1]))
    ensures Admissible(t, ip, parseCidr, parseIp, Success(t[k2]))
    ensures !Admissible(t, ip, parseCidr, parseIp, Failure(NoZoneFound(ip)))
  {
  }

  /**
   * Setup followed by lookup: a client inside the subnet of a valid
   * configuration resolves to that subnet's zone, provided every configured
   * subnet that also contains the client carries the same zone.
   */
  lemma {:induction false} ConfiguredSubnetResolves(ds: seq<Directive>, parseCidr: CidrParser, parseIp: IpParser,
                                                     i: nat, ip: string)
    requires BuildTable(ds, parseCidr).Success?
    requires i < |ds| && IsLastFor(ds, i)
    requires Covers(ds[i].subnet, ip, parseCidr, parseIp)
    requires forall j :: 0 <= j < |ds| && IsLastFor(ds, j) && Covers(ds[j].subnet, ip, parseCidr, parseIp) ==>
               ds[j].zone == ds[i].zone
    ensures ds[i].zone.Some?
    ensures forall r :: Admissible(BuildTable(ds, parseCidr).value, ip, parseCidr, parseIp, r) <==>
                        r == Success(ds[i].zone.value)
  {
    var t := BuildTable(ds, parseCidr).value;
    BuildFromKeys(map[], ds, parseCidr);
    BuildFromLastWins(map[], ds, parseCidr);
    var z := ds[i].zone.value;
    assert ds[i].subnet in CoveringKeys(t, ip, parseCidr, parseIp);
    forall k | k in CoveringKeys(t, ip, parseCidr, parseIp) ensures t[k] == z {
      var j := LastIndexOf(ds, k);
      assert ds[j].zone == ds[i].zone;
    }
    AgreeingEntriesDetermineZone(t, ip, parseCidr, parseIp, z);
  }

  /** The index of the last directive naming the subnet `s`. */
  function LastIndexOf(ds: seq<Directive>, s: string): (j: nat)
    requires s in Subnets(ds)
    ensures j < |ds| && ds[j].subnet == s && IsLastFor(ds, j)
  {
    if ds[|ds| - 1].subnet == s then |ds| - 1
    else
      var init := ds[..|ds| - 1];
      assert s in Subnets(init) by {
        var i :| 0 <= i < |ds| && ds[i].subnet == s;
        assert init[i].subnet == s;
      }
      var j := LastIndexOf(init, s);
      assert ds[j] == init[j];
      j
  }
}
