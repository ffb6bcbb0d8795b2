# azaffinity: availability-zone hints for internal load-balancer names

A model, in Dafny, of the CoreDNS plugin `azaffinity` (`azaffinity.go`). The plugin
keeps a table from client subnets (CIDR notation) to availability zones. For every
DNS request it looks up the zone of the client's IP. When the lookup succeeds, it
prepends that zone as a new first label to each question whose name is an internal
AWS load balancer in ap-southeast-1. Then it hands the request to the next plugin.

Modules, one per part of the plugin:

- `Wrappers` (`wrappers.dfy`): `Option` and `Result`, the plugin's error returns as values.
- `Cidr` (`cidr.dfy`): a parsed CIDR block as address bytes plus a prefix length.
  Containment means the first `prefixLen` bits agree and the address family is the same.
- `AffinityTable` (`table.dfy`): `setup`. The method `Setup` fills the table in a
  loop with early error returns. It is proved equal to the fold `BuildTable`, and
  lemmas about `BuildTable` state what a finished table holds.
- `Resolver` (`resolver.dfy`): `getAvailabilityZone`. The loop takes an arbitrary
  unvisited key each time, as ranging over a Go map does. `Admissible` describes
  every outcome that some iteration order can produce.
- `QueryRewriter` (`rewriter.dfy`): the name pattern of `azaffinity.go:21`, the
  per-question rewrite `Tag`, and the in-place loop `RewriteQuestions`.
- `Middleware` (`middleware.dfy`): `ServeDNS` as intended (`ServeDns`) and as
  written (`ServeDnsAsWritten`). See the finding below.

`net.ParseCIDR` and `net.ParseIP` are foreign code. Every member that needs them
takes them as function parameters (`CidrParser`, `IpParser`). The IP parser is
assumed to return an IPv4 address in its 4-byte form, which is what
`IPNet.Contains` does internally with `To4`.

Behaviour of the code worth knowing:

- The pattern is anchored and ends in `amazonaws\.com$`. A fully qualified name
  with a trailing dot therefore never matches. This includes the name used by the
  plugin's own test (`TestNameRejected`). The model follows the code.
- The unescaped `.` between `ap-southeast-1` and `elb` matches any single
  character except a newline. `.*` also excludes newlines (Go's default flags).
- Overlapping subnets are legal. No longest-prefix rule applies: any covering
  entry may answer (`OverlapAdmitsEitherZone`).
- The rewrite is not idempotent when the zone itself begins with
  `internal-k8s-` and no newline follows that prefix in the zone (`TagTwiceIff`).
  For any other zone, a second pass changes nothing.

## Model

| member | source | states |
|---|---|---|
| `AffinityTable.DirectiveError` | azaffinity.go:37-49 | a directive is accepted iff its subnet parses as CIDR, a zone follows it and the zone is non-empty; the error is InvalidSubnet exactly when the subnet does not parse, MissingZone exactly when it parses and no zone follows, EmptyZone exactly when it parses and the zone is empty |
| `AffinityTable.BuildFromFailure` | azaffinity.go:35-49 | building fails iff some directive is invalid, and the error is that of the first invalid directive |
| `AffinityTable.BuildFromSuccessValid` | azaffinity.go:35-50 | a successful build implies every directive was valid |
| `AffinityTable.BuildFromKeys` | azaffinity.go:33-50 | a successful build adds exactly the configured subnets as keys, keeps entries it does not reconfigure, and keeps every key parseable and every zone non-empty |
| `AffinityTable.BuildFromLastWins` | azaffinity.go:50 | after a successful build, each configured subnet maps to the zone of its last directive |
| `AffinityTable.SetupTestScenarios` | azaffinity_test.go:12-29 | on the directive pairs the setup test intends (not on its one-line token layout): a valid pair gives a one-entry table; an invalid subnet, a missing zone and an empty zone are rejected with their errors |
| `AffinityTable.Setup` | azaffinity.go:32-59 | the loop returns the fold's result; it fails iff some directive is invalid, with the first invalid directive's error; on success the keys are exactly the configured subnets, each key parses, each zone is non-empty and the last directive of a subnet wins |
| `Resolver.GetAvailabilityZone` | azaffinity.go:82-91 | a result is the zone of some entry whose key parses as a block containing the parsed IP; NoZoneFound is returned exactly when no entry covers the IP |
| `Resolver.NotFoundExactly` | azaffinity.go:83-90 | an empty table or an IP that does not parse is covered by no entry; every admissible outcome fails iff no entry covers the IP |
| `Resolver.AgreeingEntriesDetermineZone` | azaffinity.go:83-88 | if the covering entries all name one zone, that zone is the only admissible outcome |
| `Resolver.OverlapAdmitsEitherZone` | azaffinity.go:83-87 | with two covering entries, the zone of either may be returned (no longest-prefix rule) and failure is not admissible |
| `Resolver.ConfiguredSubnetResolves` | azaffinity.go:50-87 | after a successful setup, a client inside a configured subnet resolves to that subnet's last zone when every other covering subnet agrees on it |
| `QueryRewriter.MatchesPatternIsLanguage` | azaffinity.go:21 | the prefix/suffix test accepts exactly the strings `internal-k8s-` + m + `.ap-southeast-1` + c + `elb.amazonaws.com` with no newline in m and c |
| `QueryRewriter.Tag` | azaffinity.go:71-76 | an eligible name becomes the zone, a dot and the old name; an ineligible question is unchanged; type and class never change |
| `QueryRewriter.TagAllAt` | azaffinity.go:70-77 | the rewrite keeps the number and order of questions and rewrites each one on its own |
| `QueryRewriter.TagAllNoMatch` | azaffinity.go:70-73 | a request with no eligible question is unchanged |
| `QueryRewriter.RetagIff` | azaffinity.go:21 | a rewritten eligible name is eligible again iff the zone starts with `internal-k8s-` and has no newline |
| `QueryRewriter.TagTwiceIff` | azaffinity.go:71-76 | a second rewrite with the same zone changes a question iff its name was eligible and the zone starts like an eligible name |
| `QueryRewriter.TestNameRejected` | azaffinity_test.go:47 | the fully qualified test name does not match the anchored pattern |
| `QueryRewriter.TestNameWithoutDotMatches` | azaffinity.go:21 | the test name without its trailing dot matches |
| `QueryRewriter.UnescapedDotMatchesAnyCharacter` | azaffinity.go:21 | any non-newline character may stand between the region and `elb` |
| `QueryRewriter.RewriteQuestions` | azaffinity.go:70-77 | the question array afterwards is the per-question rewrite of its old contents (the intended in-place update) |
| `Middleware.ServeDns` | azaffinity.go:62-80 | the lookup outcome is admissible; on a miss the questions are unchanged; on a hit they are the per-question rewrite with the found zone |
| `Middleware.ServeDnsAsWritten` | azaffinity.go:70-77 | with the range copy as written, the lookup outcome is admissible and the questions always come out unchanged |
| `Middleware.RewriteIsLost` | azaffinity.go:70-76 | whenever a question is eligible, the intended rewrite differs from the unchanged request |
| `Middleware.ServeDnsTestScenario` | azaffinity_test.go:32-59 | the table and client IPs of the request test: with 10.0.0.0/24 mapped to ap-southeast-1a, client 10.0.0.1 resolves only to ap-southeast-1a and client 192.168.1.1 only to NoZoneFound; it says nothing about questions |

## Findings

| source | as written | input that shows it | evidently intended | confidence | as-written member | corrected member |
|---|---|---|---|---|---|---|
| azaffinity.go:70-76 | `for _, question := range r.Question` copies each question; `question.Name = ...` changes only the copy, so `r.Question` is never rewritten | a client in 10.0.0.0/24 (zone ap-southeast-1a) asking for `internal-k8s-example-123.ap-southeast-1.elb.amazonaws.com` keeps that name | the question in `r.Question` gets the name `ap-southeast-1a.` + name (comment at line 75). The test's expectation at azaffinity_test.go:50 uses a fully qualified name that the pattern rejects, so neither the as-written nor the corrected member produces it | high (Go range semantics; not executed) | `Middleware.ServeDnsAsWritten`, `Middleware.RewriteIsLost` | `Middleware.ServeDns` |

## Left out

- Plugin registration and chaining (`init`, `caddy.RegisterPlugin`, `AddPlugin`, `plugin.NextOrFailure`) is framework plumbing. The request is always handed on; the model returns the lookup outcome instead.
- Caddy token handling (`c.Next`, `c.NextBlock`, `c.NextArg`) is not modelled. The input of `Setup` is the sequence of directive lines inside the `{ }` block, each a subnet and an optional zone.
- One-line configurations such as `azaffinity 10.0.0.0/24 ap-southeast-1a` (the form azaffinity_test.go:13-25 uses) have no `{ }` block, so `NextBlock` returns false, the loop at azaffinity.go:36 never runs, and `setup` registers an empty table without any error. The model does not capture this; `SetupTestScenarios` covers the pairs those tests intend.
- Client-IP extraction (`request.Request`, `state.IP()`, `net.SplitHostPort`) is transport I/O. The client IP is an input. As written, `SplitHostPort` gets an address with no port and so yields an empty host. That empty host would make every lookup miss; this is not modelled.
- `net.ParseCIDR` and `net.ParseIP` are parameters, not their text grammars. The IPv4-mapped IPv6 normalisation of `IPNet.Contains` is assumed to be done by the IP parser.
- The general `regexp` engine is not modelled; only the one fixed pattern is, as a prefix/suffix test proved equal to its language. Go strings are bytes and `.` matches one UTF-8 rune; the model's strings are sequences of Unicode characters.
- The DNS wire format and the test response writer are not modelled. A question is its name, type and class.
- Concurrent request handling is not modelled; the table is read-only after setup.
- Over-length rewritten names (beyond DNS name limits) are neither checked by the source nor by the model.
