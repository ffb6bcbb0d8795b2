/**
 * `ServeDNS`: resolve the client's zone and tag the eligible questions of the
 * request, then hand the request to the next plugin. Handing on always
 * happens, whatever the lookup gave, and is not modelled; the lookup outcome is
 * returned so that callers can see which branch was taken.
 */
module Middleware {
  import opened Wrappers
  import opened Cidr
  import opened AffinityTable
  import opened Resolver
  import opened QueryRewriter

  /**
   * `ServeDNS` as its comment and its test intend: on a lookup hit the
   * request's own questions are rewritten; on a miss the request is untouched.
   */
  method ServeDns(table: map<string, string>, clientIp: string, parseCidr: CidrParser, parseIp: IpParser,
                  questions: array<Question>)
    returns (zone: Result<string, LookupError>)
    modifies questions
    ensures Admissible(table, clientIp, parseCidr, parseIp, zone)
    ensures zone.Failure? ==> questions[..] == old(questions[..])
    ensures zone.Success? ==> questions[..] == TagAll(old(questions[..]), zone.value)
  {
    zone := GetAvailabilityZone(table, clientIp, parseCidr, parseIp);
    if zone.Failure? {
      return;
    }
    RewriteQuestions(questions, zone.value);
  }

  /**
   * `ServeDNS` as written. `for _, question := range r.Question` hands the loop
   * a copy of each question, so the assignment to `question.Name` changes the
   * copy and never reaches the request: the questions always come out as they
   * went in.
   */
  method ServeDnsAsWritten(table: map<string, string>, clientIp: string, parseCidr: CidrParser, parseIp: IpParser,
                           questions: array<Question>)
    returns (zone: Result<string, LookupError>)
    ensures Admissible(table, clientIp, parseCidr, parseIp, zone)
    ensures questions[..] == old(questions[..])
  {
    zone := GetAvailabilityZone(table, clientIp, parseCidr, parseIp);
    if zone.Failure? {
      return;
    }
    var i := 0;
    while i < questions.Length
      invariant 0 <= i <= questions.Length
    {
      var question := questions[i];
      if MatchesPattern(question.name) {
        question := question.(name := zone.value + "." + question.name);
      }
      i := i + 1;
    }
  }

  /**
   * The intended rewrite differs from what the code as written leaves behind
   * whenever some question is eligible: the copy semantics lose a real change.
   */
  lemma {:induction false} RewriteIsLost(qs: seq<Question>, az: string, i: nat)
    requires i < |qs| && MatchesPattern(qs[i].name)
    ensures TagAll(qs, az) != qs
  {
    TagAllAt(qs, az, i);
    assert |TagAll(qs, az)[i].name| != |qs[i].name|;
  }

  /**
   * The table and client IPs of the plugin's request test: subnet 10.0.0.0/24
   * mapped to ap-southeast-1a; a client at 10.0.0.1 resolves only to that zone
   * and a client at 192.168.1.1 resolves to nothing. The test's question name
   * is fully qualified and so not eligible (`TestNameRejected`): neither
   * `ServeDns` nor `ServeDnsAsWritten` changes it.
   */
  lemma ServeDnsTestScenario(parseCidr: CidrParser, parseIp: IpParser)
    requires parseCidr("10.0.0.0/24") == Some(Network([10, 0, 0, 0], 24))
    requires parseIp("10.0.0.1") == Some([10, 0, 0, 1])
    requires parseIp("192.168.1.1") == Some([192, 168, 1, 1])
    ensures var t := map["10.0.0.0/24" := "ap-southeast-1a"];
      && BuildTable([Directive("10.0.0.0/24", Some("ap-southeast-1a"))], parseCidr) == Success(t)
      && (forall r :: Admissible(t, "10.0.0.1", parseCidr, parseIp, r) <==> r == Success("ap-southeast-1a"))
      && (forall r :: Admissible(t, "192.168.1.1", parseCidr, parseIp, r) <==>
                      r == Failure(NoZoneFound("192.168.1.1")))
  {
    var t := map["10.0.0.0/24" := "ap-southeast-1a"];
    var net := Network([10, 0, 0, 0], 24);
    var inside: Address := [10, 0, 0, 1];
    var outside: Address := [192, 168, 1, 1];
    assert inside[..3] == net.addr[..3];
    ContainsBySharedBytes(net, inside, 3);
    assert "10.0.0.0/24" in CoveringKeys(t, "10.0.0.1", parseCidr, parseIp);
    AgreeingEntriesDetermineZone(t, "10.0.0.1", parseCidr, parseIp, "ap-southeast-1a");
    FirstBitExcludes(net, outside);
    assert CoveringKeys(t, "192.168.1.1", parseCidr, parseIp) == {};
  }
}
