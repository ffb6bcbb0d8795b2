/**
 * The affinity table built by the plugin's `setup`: every directive inside the
 * `azaffinity` block names a subnet in CIDR notation followed by an
 * availability zone, and the valid pairs fill `SubnetAZMap`.
 */
module AffinityTable {
  import opened Wrappers
  import opened Cidr

  /** `net.ParseCIDR`: the text of a subnet to its block, or None when it is not CIDR notation. */
  type CidrParser = string -> Option<Network>

  /** One directive line: a subnet and, when the line has one, the zone argument after it. */
  datatype Directive = Directive(subnet: string, zone: Option<string>)

  /** The configuration errors `setup` returns, in the order it checks for them. */
  datatype ConfigError =
    | InvalidSubnet(subnet: string)  // the subnet does not parse as CIDR
    | MissingZone                    // no argument follows the subnet
    | EmptyZone                      // the zone argument is the empty string

  predicate ValidDirective(d: Directive, parse: CidrParser)
  {
    parse(d.subnet).Some? && d.zone.Some? && d.zone.value != ""
  }

  /** The error `setup` returns for one directive, if any. */
  function DirectiveError(d: Directive, parse: CidrParser): (e: Option<ConfigError>)
    ensures e.None? <==> ValidDirective(d, parse)
    ensures e == Some(InvalidSubnet(d.subnet)) <==> parse(d.subnet).None?
    ensures e == Some(MissingZone) <==> parse(d.subnet).Some? && d.zone.None?
    ensures e == Some(EmptyZone) <==> parse(d.subnet).Some? && d.zone == Some("")
  {
    if parse(d.subnet).None? then Some(InvalidSubnet(d.subnet))
    else if d.zone.None? then Some(MissingZone)
    else if d.zone.value == "" then Some(EmptyZone)
    else None
  }

  /** What a finished table promises: every key is a CIDR block and every zone is non-empty. */
  predicate WellFormedTable(t: map<string, string>, parse: CidrParser)
  {
    forall k :: k in t ==> parse(k).Some? && t[k] != ""
  }

  /** The subnets the directives name. */
  function Subnets(ds: seq<Directive>): set<string>
  {
    set i | 0 <= i < |ds| :: ds[i].subnet
  }

  /** Directive `i` is the last one that configures its subnet. */
  predicate IsLastFor(ds: seq<Directive>, i: nat)
    requires i < |ds|
  {
    forall j :: i < j < |ds| ==> ds[j].subnet != ds[i].subnet
  }

  /** Index of the first directive `setup` rejects, or `|ds|` when there is none. */
  function FirstInvalid(ds: seq<Directive>, parse: CidrParser): (k: nat)
    ensures k <= |ds|
    ensures forall j :: 0 <= j < k ==> ValidDirective(ds[j], parse)
    ensures k < |ds| ==> !ValidDirective(ds[k], parse)
  {
    if ds == [] then 0
    else if !ValidDirective(ds[0], parse) then 0
    else 1 + FirstInvalid(ds[1..], parse)
  }

  /** The table-building loop of `setup`, continued from the partial table `acc`. */
  function BuildFrom(acc: map<string, string>, ds: seq<Directive>, parse: CidrParser)
    : Result<map<string, string>, ConfigError>
    decreases |ds|
  {
    if ds == [] then Success(acc)
    else match DirectiveError(ds[0], parse)
      case Some(e) => Failure(e)
      case None => BuildFrom(acc[ds[0].subnet := ds[0].zone.value], ds[1..], parse)
  }

  /** The outcome of `setup` on a whole configuration, starting from an empty map. */
  function BuildTable(ds: seq<Directive>, parse: CidrParser): Result<map<string, string>, ConfigError>
  {
    BuildFrom(map[], ds, parse)
  }

  lemma SubnetsCons(ds: seq<Directive>)
    requires ds != []
    ensures Subnets(ds) == {ds[0].subnet} + Subnets(ds[1..])
  {
  }

  /** The loop stops at the first rejected directive and reports that directive's error. */
  lemma {:induction false} BuildFromFailure(acc: map<string, string>, ds: seq<Directive>, parse: CidrParser)
    ensures BuildFrom(acc, ds, parse).Failure? <==> FirstInvalid(ds, parse) < |ds|
    ensures BuildFrom(acc, ds, parse).Failure? ==>
      Some(BuildFrom(acc, ds, parse).error) == DirectiveError(ds[FirstInvalid(ds, parse)], parse)
    decreases |ds|
  {
    if ds != [] && ValidDirective(ds[0], parse) {
      BuildFromFailure(acc[ds[0].subnet := ds[0].zone.value], ds[1..], parse);
      if FirstInvalid(ds[1..], parse) < |ds[1..]| {
        assert ds[1..][FirstInvalid(ds[1..], parse)] == ds[FirstInvalid(ds, parse)];
      }
    }
  }

  /** A run succeeds only when every directive is valid. */
  lemma {:induction false} BuildFromSuccessValid(acc: map<string, string>, ds: seq<Directive>, parse: CidrParser)
    requires BuildFrom(acc, ds, parse).Success?
    ensures forall i :: 0 <= i < |ds| ==> ValidDirective(ds[i], parse)
    decreases |ds|
  {
    if ds != [] {
      BuildFromSuccessValid(acc[ds[0].subnet := ds[0].zone.value], ds[1..], parse);
      forall i | 1 <= i < |ds| ensures ValidDirective(ds[i], parse) {
        assert ds[1..][i - 1] == ds[i];
      }
    }
  }

  /**
   * A successful run adds exactly the configured subnets to `acc`, keeps the
   * entries of `acc` it does not reconfigure, and keeps the table well formed.
   */
  lemma {:induction false} BuildFromKeys(acc: map<string, string>, ds: seq<Directive>, parse: CidrParser)
    requires BuildFrom(acc, ds, parse).Success?
    ensures var t := BuildFrom(acc, ds, parse).value;
      && t.Keys == acc.Keys + Subnets(ds)
      && (forall k :: k in acc && k !in Subnets(ds) ==> t[k] == acc[k])
      && (WellFormedTable(acc, parse) ==> WellFormedTable(t, parse))
    decreases |ds|
  {
    if ds != [] {
      BuildFromKeys(acc[ds[0].subnet := ds[0].zone.value], ds[1..], parse);
      SubnetsCons(ds);
    }
  }

  /** A successful run gives each configured subnet the zone of its last directive. */
  lemma {:induction false} BuildFromLastWins(acc: map<string, string>, ds: seq<Directive>, parse: CidrParser)
    requires BuildFrom(acc, ds, parse).Success?
    ensures forall i :: 0 <= i < |ds| && IsLastFor(ds, i) ==>
      && ds[i].zone.Some?
      && ds[i].subnet in BuildFrom(acc, ds, parse).value
      && BuildFrom(acc, ds, parse).value[ds[i].subnet] == ds[i].zone.value
    decreases |ds|
  {
    BuildFromSuccessValid(acc, ds, parse);
    BuildFromKeys(acc, ds, parse);
    if ds != [] {
      var acc' := acc[ds[0].subnet := ds[0].zone.value];
      var rest := ds[1..];
      BuildFromLastWins(acc', rest, parse);
      BuildFromKeys(acc', rest, parse);
      var t := BuildFrom(acc, ds, parse).value;
      assert t == BuildFrom(acc', rest, parse).value;
      forall i | 0 <= i < |ds| && IsLastFor(ds, i)
        ensures t[ds[i].subnet] == ds[i].zone.value
      {
        if i == 0 {
          assert ds[0].subnet !in Subnets(rest);
        } else {
          assert rest[i - 1] == ds[i];
          assert IsLastFor(rest, i - 1) by {
            forall j | i - 1 < j < |rest| ensures rest[j].subnet != rest[i - 1].subnet {
              assert rest[j] == ds[j + 1];
            }
          }
        }
      }
    }
  }

  /**
   * The directive pairs the plugin's setup test intends to configure: a valid
   * pair builds a one-entry table; a subnet that is not CIDR, a missing zone
   * and an empty zone are rejected. The test writes them as one-line
   * configurations without a `{ }` block, which the source's loop never
   * reads; this lemma is about the pairs, not about that token layout.
   */
  lemma SetupTestScenarios(parse: CidrParser, n: Network)
    requires parse("10.0.0.0/24") == Some(n)
    requires parse("invalid-subnet") == None
    ensures BuildTable([Directive("10.0.0.0/24", Some("ap-southeast-1a"))], parse)
         == Success(map["10.0.0.0/24" := "ap-southeast-1a"])
    ensures BuildTable([Directive("invalid-subnet", Some("ap-southeast-1a"))], parse)
         == Failure(InvalidSubnet("invalid-subnet"))
    ensures BuildTable([Directive("10.0.0.0/24", None)], parse) == Failure(MissingZone)
    ensures BuildTable([Directive("10.0.0.0/24", Some(""))], parse) == Failure(EmptyZone)
  {
  }

  /**
   * `setup`: validate each directive in order and fill the table, stopping at
   * the first error. The returned map is what the plugin is registered with;
   * on an error nothing is registered.
   */
  method Setup(ds: seq<Directive>, parse: CidrParser) returns (r: Result<map<string, string>, ConfigError>)
    ensures r == BuildTable(ds, parse)
    ensures r.Failure? <==> exists i :: 0 <= i < |ds| && !ValidDirective(ds[i], parse)
    ensures r.Failure? ==> exists i :: 0 <= i < |ds| && Some(r.error) == DirectiveError(ds[i], parse)
                                    && forall j :: 0 <= j < i ==> ValidDirective(ds[j], parse)
    ensures r.Success? ==> r.value.Keys == Subnets(ds) && WellFormedTable(r.value, parse)
    ensures r.Success? ==> forall i :: 0 <= i < |ds| && IsLastFor(ds, i) ==> r.value[ds[i].subnet] == ds[i].zone.value
  {
    BuildFromFailure(map[], ds, parse);
    if BuildTable(ds, parse).Success? {
      BuildFromKeys(map[], ds, parse);
      BuildFromLastWins(map[], ds, parse);
    }
    var table: map<string, string> := map[];
    var i := 0;
    while i < |ds|
      invariant 0 <= i <= |ds|
      invariant BuildFrom(table, ds[i..], parse) == BuildTable(ds, parse)
    {
      var d := ds[i];
      assert ds[i..][0] == d;
      if parse(d.subnet).None? {
        return Failure(InvalidSubnet(d.subnet));
      }
      if d.zone.None? {
        return Failure(MissingZone);
      }
      var az := d.zone.value;
      if az == "" {
        return Failure(EmptyZone);
      }
      table := table[d.subnet := az];
      assert ds[i..][1..] == ds[i + 1..];
      i := i + 1;
    }
    r := Success(table);
  }
}
