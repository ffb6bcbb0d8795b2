/**
 * The question rewrite of `ServeDNS`: a question whose name has the form of an
 * internal AWS load balancer in ap-southeast-1 gets the client's zone
 * prepended as a new first label.
 */
module QueryRewriter {

  newtype uint16 = x: int | 0 <= x < 0x1_0000

  /** A DNS question: only the name takes part in the rewrite. */
  datatype Question = Question(name: string, qtype: uint16, qclass: uint16)

  /** The fixed pieces of `^internal-k8s-.*\.ap-southeast-1.elb\.amazonaws\.com$`. */
  const NamePrefix: string := "internal-k8s-"
  const RegionPart: string := ".ap-southeast-1"
  const NameSuffix: string := "elb.amazonaws.com"

  /** Length of everything after the `.*`: the region, the one wildcard character and the suffix. */
  const TailLength: nat := |RegionPart| + 1 + |NameSuffix|

  /**
   * The anchored match, decided by its fixed prefix and tail. The unescaped `.`
   * between the region and `elb` matches any one character; like `.*` it does
   * not match a newline. Nothing may follow `amazonaws.com`, so a fully
   * qualified name with a trailing dot does not match.
   */
  predicate MatchesPattern(name: string)
  {
    && |name| >= |NamePrefix| + TailLength
    && name[..|NamePrefix|] == NamePrefix
    && name[|name| - TailLength .. |name| - |NameSuffix| - 1] == RegionPart
    && name[|name| - |NameSuffix| - 1] != '\n'
    && name[|name| - |NameSuffix|..] == NameSuffix
    && forall i :: |NamePrefix| <= i < |name| - TailLength ==> name[i] != '\n'
  }

  /** The name the pattern spells out for a middle part `mid` and wildcard character `wild`. */
  function PatternName(mid: string, wild: char): string
  {
    NamePrefix + mid + RegionPart + [wild] + NameSuffix
  }

  /** The language of the regular expression: all names it spells out. */
  ghost predicate InPatternLanguage(name: string)
  {
    exists mid, wild :: name == PatternName(mid, wild) && '\n' !in mid && wild != '\n'
  }

  /** The prefix/suffix test accepts exactly the language of the regular expression. */
  lemma MatchesPatternIsLanguage(name: string)
    ensures MatchesPattern(name) <==> InPatternLanguage(name)
  {
    if MatchesPattern(name) {
      var mid := name[|NamePrefix| .. |name| - TailLength];
      var wild := name[|name| - |NameSuffix| - 1];
      assert '\n' !in mid by {
        forall i | 0 <= i < |mid| ensures mid[i] != '\n' {
          assert mid[i] == name[|NamePrefix| + i];
        }
      }
      assert name == PatternName(mid, wild) by {
        var a := |NamePrefix|;
        var b := |name| - TailLength;
        var c := |name| - |NameSuffix| - 1;
        var d := |name| - |NameSuffix|;
        assert name == name[..a] + name[a..b] + name[b..c] + name[c..d] + name[d..];
        assert name[c..d] == [wild];
      }
    }
    if InPatternLanguage(name) {
      var mid, wild :| name == PatternName(mid, wild) && '\n' !in mid && wild != '\n';
      PatternNameParts(mid, wild);
    }
  }

  /** Slicing a spelled-out name gives back its pieces. */
  lemma PatternNameParts(mid: string, wild: char)
    requires '\n' !in mid && wild != '\n'
    ensures MatchesPattern(PatternName(mid, wild))
  {
  }

  /**
   * The rewrite of one question: an eligible name gets the zone and a dot in
   * front of it; every other question is returned as it is.
   */
  function Tag(q: Question, az: string): (r: Question)
    ensures r.qtype == q.qtype && r.qclass == q.qclass
    ensures MatchesPattern(q.name) ==>
      && |r.name| == |az| + 1 + |q.name|
      && r.name[..|az|] == az && r.name[|az|] == '.'
      && r.name[|az| + 1..] == q.name
    ensures !MatchesPattern(q.name) ==> r == q
  {
    if MatchesPattern(q.name) then q.(name := az + "." + q.name) else q
  }

  /** Every question of a request, rewritten independently with the same zone. */
  function TagAll(qs: seq<Question>, az: string): seq<Question>
  {
    if qs == [] then [] else [Tag(qs[0], az)] + TagAll(qs[1..], az)
  }

  /** The rewrite keeps the number and order of the questions and rewrites each one on its own. */
  lemma {:induction false} TagAllAt(qs: seq<Question>, az: string, k: nat)
    requires k < |qs|
    ensures |TagAll(qs, az)| == |qs|
    ensures TagAll(qs, az)[k] == Tag(qs[k], az)
  {
    if k > 0 {
      TagAllAt(qs[1..], az, k - 1);
    } else if |qs| > 1 {
      TagAllAt(qs[1..], az, 0);
    }
  }

  /** A request whose every question is ineligible comes out unchanged. */
  lemma {:induction false} TagAllNoMatch(qs: seq<Question>, az: string)
    requires forall i :: 0 <= i < |qs| ==> !MatchesPattern(qs[i].name)
    ensures TagAll(qs, az) == qs
  {
    if qs != [] {
      TagAllNoMatch(qs[1..], az);
    }
  }

  /** A zone that itself starts like an eligible name, `internal-k8s-` followed by no newline. */
  predicate LooksInternal(az: string)
  {
    && |az| >= |NamePrefix|
    && az[..|NamePrefix|] == NamePrefix
    && forall i :: |NamePrefix| <= i < |az| ==> az[i] != '\n'
  }

  /** If a rewritten eligible name is eligible again, the zone looks like an eligible name's start. */
  lemma RetagNeedsInternalZone(name: string, az: string)
    requires |name| >= TailLength
    requires MatchesPattern(az + "." + name)
    ensures LooksInternal(az)
  {
    var n2 := az + "." + name;
    var p := |NamePrefix|;
    assert n2[|az|] == '.';
    assert forall i :: 0 <= i < p ==> n2[i] == NamePrefix[i] && NamePrefix[i] != '.';
    assert |az| >= p;
    assert az[..p] == n2[..p];
    forall i | p <= i < |az| ensures az[i] != '\n' {
      assert az[i] == n2[i];
    }
  }

  /** A rewritten eligible name is eligible again when the zone looks like an eligible name's start. */
  lemma RetagWithInternalZone(name: string, az: string)
    requires MatchesPattern(name) && LooksInternal(az)
    ensures MatchesPattern(az + "." + name)
  {
    var n2 := az + "." + name;
    var p := |NamePrefix|;
    assert n2[|n2| - TailLength .. |n2| - |NameSuffix| - 1] == name[|name| - TailLength .. |name| - |NameSuffix| - 1];
    assert n2[|n2| - |NameSuffix|..] == name[|name| - |NameSuffix|..];
    assert n2[|n2| - |NameSuffix| - 1] == name[|name| - |NameSuffix| - 1];
    assert n2[..p] == az[..p];
    forall i | p <= i < |n2| - TailLength ensures n2[i] != '\n' {
      if i < |az| {
        assert n2[i] == az[i];
      } else if i > |az| {
        assert n2[i] == name[i - |az| - 1];
        if i - |az| - 1 < p {
          assert name[..p][i - |az| - 1] == NamePrefix[i - |az| - 1];
        }
      }
    }
  }

  /** A rewritten name is eligible again exactly when the zone looks like an eligible name's start. */
  lemma RetagIff(name: string, az: string)
    requires MatchesPattern(name)
    ensures MatchesPattern(az + "." + name) <==> LooksInternal(az)
  {
    if MatchesPattern(az + "." + name) {
      RetagNeedsInternalZone(name, az);
    }
    if LooksInternal(az) {
      RetagWithInternalZone(name, az);
    }
  }

  /**
   * The rewrite is not idempotent in general: a second pass changes a question
   * again exactly when the name was eligible and the zone looks like an
   * eligible name's start.
   */
  lemma TagTwiceIff(q: Question, az: string)
    ensures Tag(Tag(q, az), az) == Tag(q, az) <==> !(MatchesPattern(q.name) && LooksInternal(az))
  {
    if MatchesPattern(q.name) {
      RetagIff(q.name, az);
    }
  }

  /** The question name of the plugin's test is fully qualified, so the anchored pattern rejects it. */
  lemma TestNameRejected()
    ensures !MatchesPattern("internal-k8s-example-123.ap-southeast-1.elb.amazonaws.com.")
  {
  }

  /** Without its trailing dot the test's name is eligible. */
  lemma TestNameWithoutDotMatches()
    ensures MatchesPattern("internal-k8s-example-123.ap-southeast-1.elb.amazonaws.com")
  {
    var mid := "example-123";
    PatternNameParts(mid, '.');
    SpellTestName();
  }

  lemma SpellTestName()
    ensures PatternName("example-123", '.') == "internal-k8s-example-123.ap-southeast-1.elb.amazonaws.com"
  {
    var head := NamePrefix + "example-123";
    assert head == "internal-k8s-example-123";
    assert head + RegionPart == "internal-k8s-example-123.ap-southeast-1";
    assert head + RegionPart + ['.'] == "internal-k8s-example-123.ap-southeast-1.";
  }

  /** The unescaped dot lets any character other than a newline stand between the region and `elb`. */
  lemma UnescapedDotMatchesAnyCharacter(mid: string, wild: char)
    requires '\n' !in mid && wild != '\n'
    ensures MatchesPattern(NamePrefix + mid + ".ap-southeast-1" + [wild] + "elb.amazonaws.com")
  {
  }

  /**
   * The loop of `ServeDNS`, as its comment intends: each eligible question of
   * the request has its name replaced in the request's own question list.
   */
  method RewriteQuestions(questions: array<Question>, az: string)
    modifies questions
    ensures questions[..] == TagAll(old(questions[..]), az)
  {
    var i := 0;
    while i < questions.Length
      invariant 0 <= i <= questions.Length
      invariant forall j :: 0 <= j < i ==> questions[j] == Tag(old(questions[j]), az)
      invariant forall j :: i <= j < questions.Length ==> questions[j] == old(questions[j])
    {
      if MatchesPattern(questions[i].name) {
        questions[i] := questions[i].(name := az + "." + questions[i].name);
      }
      i := i + 1;
    }
    ghost var before := old(questions[..]);
    if questions.Length == 0 {
      assert before == [];
    } else {
      TagAllAt(before, az, 0);
      forall k | 0 <= k < questions.Length ensures questions[..][k] == TagAll(before, az)[k] {
        TagAllAt(before, az, k);
      }
    }
  }
}
