# Verification of the SolidServer MCP server

This project models the parts of the SolidServer MCP server that decide whether an IPAM/DHCP
change may happen, how filters are built and checked, how requests are retried, and how listings
are paged, and proves what they promise.

* **Protected subnets and the DHCP tools.** `Guardrails` decides overlap in two ways, by leading
  bits and by a three-way interval test. Both are proved to say exactly that the blocks (or the
  block and the interval) share an address, and so to agree. The ten mutating DHCP tools are
  methods of a class `Server`; each builds the requests it sends to an `Appliance` object that
  holds scopes, ranges, reservations, groups and shared networks and logs every request with the
  success it reports. Each handler is proved to send exactly the requests its call needs, to be done
  exactly when the call is permitted and its write succeeds, to refuse exactly what is not permitted,
  and to fail only when a request of its own was reported failed. `DhcpSession.Serve` hands any
  sequence of calls to the handlers: over all of them, cascading deletes included, what touches a
  protected subnet, or cannot be told not to, survives unchanged, and none is added.
* **The WHERE dialect.** The byte scanner is proved equivalent to a grammar with an unambiguous
  parser and printer; escaping is injective and undone by unescaping; every filter the guards and
  lookups build reads back to the values it was built from; splicing two filters keeps both in
  their parentheses.
* **The retry transport.** `RoundTrip` refines a function of the script of outcomes,
  cancellations, limiter answers and jitter, over request bodies that reading uses up.
  `RetryRuns.Exchange` states what follows for a request: which attempt decides, that every attempt
  is handed the whole original body, that response bodies are closed exactly once or returned open,
  what each timer is set to under the transport's own settings, and how long the request can sleep in
  wrapping 64-bit arithmetic.
* **Paging, CIDR resolution and subnets.** Following `next_offset` collects the whole listing; a
  resolved subnet id is sound and unambiguous; and exactly when an answer taken from one page speaks
  for every network at an address. `SubnetRuns.Serve` hands any sequence of subnet creates, edits and
  deletes to their handlers: networks in a protected space survive, and so do networks that overlap a
  protected subnet as long as the targets of each delete fit a page; none is added.

A `method` here follows the code's statements; the predicates it is proved against (`Clear`,
`Forbids`, `Permitted`, `Effect`, `Accepted`, `LastAttempt`, `Resolves`) say what it decides, and
the lemmas say what that means. `DhcpState.Answered` is what every DHCP tool promises of a call.

## What does not hold

Where the code does not do what its comments promise, or only up to a limit, the code is modelled
as it is, a lemma says exactly when the promise is kept, and another names an input that breaks it.

* `dhcp_scope_create` checks the masked block but sends the address unmasked. The scope it creates
  stays clear of every protected subnet it was checked against, for every configuration, exactly
  when the address is network-aligned (`DhcpRuns.CreateGuardIsExactIffAligned`); 10.0.0.128/24 with
  10.0.1.0/24 protected is one that is not (`DhcpRuns.UnalignedCreateExample`). The session theorem
  names unaligned creates as the one way a guarded scope appears.
* A Retry-After in seconds is honoured for all settings exactly when its nanoseconds fit 64 bits
  (`Backoff.HonouredIffSecondsFit`); 18446744074 seconds become 290 ms
  (`Backoff.LongRetryAfterWraps`).
* Every backoff that a request's attempts can come to is positive exactly when the product and the
  jitter of the last one fit 64 bits (`Backoff.AlwaysWaitsIffFits`); an initial backoff of 200 days
  gives a negative eleventh wait, though four attempts are safe (`Backoff.LongBackoffGoesNegative`).
* A WHERE clause that ends in a lone backslash outside quotes is accepted; a spliced clause is
  accepted exactly when neither part ends in an odd run of backslashes
  (`WhereQuery.SpliceIsAccepted`). The lone backslash itself is such a clause
  (`WhereQuery.LoneBackslash`).
* The subnet guards test resolved extents for emptiness only. A delete guard that passes has
  verified its targets exactly when all their ends read as addresses, an update guard its subnet
  exactly when both ends do (`SubnetGuards.ApplySubnetDeleteExtentProtection`,
  `SubnetGuards.ApplySubnetUpdateProtections`). A target that ends in "?", and a subnet from "?" to
  "?", are never refused and not verified (`SubnetGuards.UnreadableTargetPasses`,
  `SubnetGuards.UnreadableSubnetPasses`).
* The subnet lookups do not refuse a full page. A delete guard that passes speaks for every network
  at the address exactly when these fit one page of 1000
  (`SubnetGuards.DeleteGuardSpeaksIffItFits`), and an id that resolves speaks for every candidate
  exactly when these fit one page or the prefix has no computable size
  (`Subnets.ResolutionSpeaksIffItFits`). For every larger number, `SubnetGuards.AllButLast` and
  `Subnets.Twins` are networks that mislead.
* The comment on `scopeExtentsFromRows` (tools/dhcp_tools.go:1126-1130) speaks of resolved start
  and end addresses; the code never reads them, and the model follows the code.

## Assumptions

* Tool calls come one at a time, and nothing else changes the appliance during a call.
* A listing returns min(limit, matches) different matching rows, in any order, or fails.
* List filters and deletes of scopes, groups and shared networks select by the same text equality;
  deletes of ranges and reservations select by equal addresses. The appliance reads a filter as the
  parsed clause, with backslash escapes in literals.
* A scope delete takes ranges and reservations of that server only if they lie inside the scope's
  extent; deleting a shared network or a group may or may not take or ungroup its members. A
  request that fails was either carried out or changed nothing.
* The appliance keeps subnets as whole CIDR blocks, as tools/subnet_tools.go:223-226 has it: a
  created or resized subnet is the block of its start address and prefix, in dotted or canonical
  text. A subnet delete takes the networks that start at the address in that space, and other
  networks only if they lie inside one of these.
* A base transport that fails gives no response, and every response it gives has a body to close.
  It may read any part of a request body.
* IPv6 text is a reader and a printer of 128-bit values (`NetipText.Ipv6Text`); all that is assumed
  of them is `NetipText.Lawful`: printed text reads back, and letter case does not matter.
  `Guards.LawfulTextExists` shows the assumption consistent. IPv4 text is written out in full.
* `strings.EqualFold` and `strings.ToLower` fold ASCII letters. In the WHERE modules one character is one byte.

## Model

| member | source | states |
|---|---|---|
| Netip.ContainsIsBlock | tools/guardrails.go:80-83 | an address is in a prefix by its leading bits iff it lies between the block's first and last address |
| Netip.NestedOrDisjoint | tools/guardrails.go:126-132 | any two CIDR blocks are nested or disjoint |
| Netip.OverlapsIsSharing | tools/guardrails.go:130-132 | the leading-bits overlap test holds iff some address is in both blocks, in either order of the arguments |
| Netip.ThreeWayIsExact | tools/guardrails.go:80-85 | for any ordered pair of addresses, of one family or two, the three-way test holds iff some address of the closed interval is in the block |
| Netip.MeetsBlockIsOverlap | tools/guardrails.go:83-132 | an interval that is a whole block meets a prefix iff the two prefixes overlap |
| Netip.EndsOfInterval | tools/dhcp_tools.go:604-613 | two addresses bound a non-empty run of addresses of one family iff they are of one family and not reversed |
| NetipText.AddrReadsBack | tools/validation.go:252-266 | a printed address is tight text without a slash that parses to the address |
| NetipText.PrefixReadsBack | tools/validation.go:252-266 | a printed prefix parses to the prefix and never as an address |
| NetipText.Ipv4TextIsCanonical | tools/validation.go:252-266 | the only text that reads as an IPv4 address is the one that prints it |
| NetipText.Ipv4PrefixTextIsCanonical | tools/validation.go:252-266 | the only text that reads as an IPv4 prefix is the one that prints it |
| Validation.CanonicalReadsBack | tools/validation.go:240-266 | the canonical CIDR text re-parses to the one aligned block of the given length that holds the given address |
| Validation.ValidIffCanonical | tools/validation.go:204-238 | subnet validation accepts an address/prefix pair iff a canonical CIDR exists for it |
| Validation.PaddedLengthIsNoPrefix | tools/validation.go:240-266 | "08" is accepted as a length, but no prefix text ends in it: the guards must go through the canonical text |
| Validation.MACsAreGroups | tools/validation.go:269-307 | up to outer spaces a MAC is 6, 7, 8 or 20 hex octets in colons, 6, 8 or 20 in hyphens, or 3, 4 or 10 dotted pairs |
| Guards.Guardrails.OverlappingProtectedSubnet | tools/guardrails.go:63-88 | reports the first configured entry whose block shares an address with the interval between two addresses in either order, and none iff all blocks are disjoint from it or an address does not parse |
| Guards.Guardrails.CheckProtectedRange | tools/guardrails.go:92-97 | refuses a range iff it overlaps a protected block |
| Guards.Guardrails.CheckProtectedSubnet | tools/guardrails.go:113-136 | refuses a text iff some entry spells it, contains its address or overlaps its prefix |
| Guards.Guardrails.CheckProtectedSubnetCIDR | tools/guardrails.go:99-110 | however the pair is spelled, refuses iff the block it denotes meets a protected block; a pair that denotes none is refused iff its address text is protected, overlaps or is spelled by an entry |
| Guards.Guardrails.CheckProtectedSpace | tools/guardrails.go:26-37 | refuses iff some entry equals the space up to letter case and outer spaces |
| Guards.NamedUpToCase | tools/guardrails.go:26-37 | an entry names a target iff they are the same up to outer spaces and the case of ASCII letters |
| Guards.TextCheckIsExact | tools/guardrails.go:112-136 | whatever a text is, address, CIDR or neither, it is refused iff what it denotes is protected or an entry spells it |
| Guards.FoldKeepsPrefix | tools/guardrails.go:122-126 | texts equal up to letter case denote the same prefix, so matching by text never refuses a CIDR that overlap would not |
| Guards.AddressCheckIsExact | tools/guardrails.go:112-136 | an address is refused iff it is in a protected block or an entry spells it |
| Guards.CidrCheckIsExact | tools/guardrails.go:112-136 | a CIDR is refused iff its block meets a protected block, nothing more and nothing less |
| Guards.TwoAlgorithmsAgree | tools/guardrails.go:63-136 | for every CIDR, the leading-bits check refuses iff the interval check on its first and last address reports a hit |
| Guards.GuardThenValidationIsClosed | tools/guardrails.go:99-110 | for pairs that validation accepts, a canonical CIDR exists and re-parses, and the guard lets the pair through iff its block is clear of every protected one |
| Masks.MaskLengthOfCidrMask | tools/dhcp_tools.go:374-383 | building a mask of any length and measuring it gives the length back |
| Masks.CidrMaskValue | tools/dhcp_tools.go:377-383 | the mask of a /k spells 2^32 - 2^(32-k) |
| Masks.DottedMaskReadsBack | tools/dhcp_tools.go:377-383 | every prefix length 0-32 survives being written as a dotted mask and read back |
| Masks.DottedMaskIsCanonical | tools/dhcp_tools.go:1184-1201 | a mask text has length k iff it reads as 2^32 - 2^(32-k), in IPv4 or IPv4-mapped form; other patterns have no length |
| ScopeExtent.ScopeCountIsExact | tools/dhcp_tools.go:1168-1182 | a scope's address count is its positive size, and only without one the count its canonical mask leaves |
| ScopeExtent.PlusNeverWraps | tools/dhcp_tools.go:1203-1223 | for all IPv4 bases and all uint64 sizes the end is base+size-1 exactly when that fits 32 bits, else there is none |
| ScopeExtent.ExtentIsSpan | tools/dhcp_tools.go:1140-1166 | an extent is produced iff base and count are known and the last address exists; its texts parse to exactly the first and the last |
| ScopeExtent.ScopeExtentsFromRows | tools/dhcp_tools.go:1126-1138 | one extent per row, in order |
| ScopeExtent.CreatedRowSpan | tools/dhcp_tools.go:552-564 | a created scope spans 2^(32-prefix) addresses from the address sent, aligned or not |
| ScopeExtent.CreateAndDeleteSeeTheSameBlock | tools/dhcp_tools.go:525-564 | for an aligned address, the extent the delete guard derives from the created row is the block the create guard checked |
| WhereClause.ScanWhereClauseTokens | tools/validation.go:513-540 | the loop computes the scanner automaton: quote state, depth, and an error iff a parenthesis closes too much |
| WhereClause.ValidateWhereClause | tools/validation.go:491-511 | accepts iff NUL-free, balanced and no literal open |
| WhereClause.ParsePrintsBack | tools/validation.go:513-540 | for every text, the parse tree is proper and prints back to what was read |
| WhereClause.PrintedParses | tools/validation.go:513-540 | printing a tree and parsing it gives the tree |
| WhereClause.ClauseScans | tools/validation.go:513-540 | scanning a derivable clause at any depth ends in the state it began in |
| WhereClause.ScannerDecidesGrammar | tools/validation.go:491-540 | a clause is accepted iff NUL-free and derivable, perhaps with one dangling backslash; then the parser's tree is its derivation |
| WhereClause.DerivationIsUnique | tools/validation.go:513-540 | a clause has one derivation |
| WhereQuery.TwoPassesAreOne | tools/validation.go:457-461 | backslashes then quotes over the whole value is one pass per character |
| WhereQuery.UnescapeUndoesEscape | tools/validation.go:457-461 | unescaping an escaped value gives the value, for every string |
| WhereQuery.EscapeIsInjective | tools/validation.go:457-461 | different values have different escaped texts |
| WhereQuery.FilterReadsBack | tools/subnet_tools.go:240-243 | a filter of any number of escaped equalities parses as exactly that many literals and reads back to the columns and values given, whatever they hold |
| WhereQuery.FilterIsAccepted | tools/validation.go:491-511 | such a filter of NUL-free texts always passes the validator and leaves no escape pending |
| WhereQuery.QueryReadsBack | tools/dhcp_tools.go:784-787 | for all values, the member query parses as exactly two literals that denote them, is valid when NUL-free, and leaves no escape pending |
| WhereQuery.UserPartStaysInside | tools/tools.go:421-430 | every position of the user part is at depth one or more |
| WhereClause.DanglingIffOddRun | tools/validation.go:513-540 | a text that scans ends in a pending escape iff it ends in an odd run of backslashes |
| WhereQuery.SpliceIsAccepted | tools/tools.go:421-430 | the spliced clause is accepted iff neither part ends in the middle of an escape, that is, in an odd run of backslashes |
| WhereQuery.LoneBackslash | tools/validation.go:513-540 | a lone backslash is accepted and cannot be spliced on either side |
| WhereQuery.SpliceParses | tools/tools.go:421-430 | of two accepted parts without pending escapes, either perhaps empty, the spliced clause is accepted and derives as the conjunction of the trees of exactly the parts that are not empty |
| WhereQuery.SpliceSelectsBoth | tools/tools.go:421-430 | however clauses select rows, if no condition selects every row and AND both sides' rows, the spliced clause selects a row iff each part does |
| WhereQuery.LastByteCloses | tools/tools.go:421-430 | the user part's parenthesis is closed by the last byte and by no earlier one |
| DhcpState.ExtentCheckIsExact | tools/dhcp_tools.go:1273-1284 | parseable and reported clear iff the scope's true addresses are known and unprotected |
| DhcpState.StaticCheckIsExact | tools/dhcp_tools.go:1309-1316 | a reservation's address text passes the group guard iff it is known, unprotected and spelled by no entry |
| DhcpTools.ScopeQuerySelects | tools/dhcp_tools.go:784-787 | whatever server and address hold, the guard's query selects exactly the scopes the delete would |
| DhcpTools.SharedNetworkQuerySelects | tools/dhcp_tools.go:1289-1292 | the same for the scopes under a shared network |
| DhcpTools.StaticQuerySelects | tools/dhcp_tools.go:1322-1323 | the same for the reservations under a group |
| Pages.ShortPageIsComplete | tools/dhcp_tools.go:1240-1242 | a page that is not full holds every match, however many rows there are |
| DhcpTools.Server.RunDhcpScopeExtentQuery | tools/dhcp_tools.go:1229-1244 | on success every matching scope was returned, with its extent; refuses only when the matches fill a page |
| DhcpTools.Server.CheckScopeExtents | tools/dhcp_tools.go:762-776 | passes only if every member scope is verified, refuses only if one is not or a page is full |
| DhcpTools.Server.ApplyDhcpScopeDeleteExtentProtection | tools/dhcp_tools.go:754-777 | the same, for all scopes at a server and address |
| DhcpTools.Server.ApplyDhcpSharedNetworkDeleteExtentProtection | tools/dhcp_tools.go:1246-1271 | the same, for all scopes under a shared network |
| DhcpTools.Server.LookupDhcpGroupStaticAddrs | tools/dhcp_tools.go:1320-1351 | on success the addresses of every reservation in the group; refuses only when they fill a page |
| DhcpTools.Server.ApplyDhcpGroupDeleteStaticProtection | tools/dhcp_tools.go:1294-1318 | passes only if every reservation in the group is verified, refuses only if one is not or a page is full |
| DhcpTools.Server.ValidateDhcpRangeEndpoints | tools/dhcp_tools.go:589-615 | accepts iff the server is given, the ends are NUL-free addresses, and the addresses from the first to the second are a non-empty run of one family |
| DhcpTools.Server.StaticAdd | tools/dhcp_tools.go:473-523 | refused without a request iff its inputs do not pass mode, guard and validators; otherwise its one write, this reservation, is sent, and it is done, with exactly this effect, iff that succeeds; it fails only when the write is reported failed, and then changed nothing or did what it asked |
| DhcpTools.Server.StaticDelete | tools/dhcp_tools.go:839-879 | the same; the request names server and address as given, and done removes exactly the reservations at the address |
| DhcpTools.Server.ScopeCreate | tools/dhcp_tools.go:525-587 | the same; the one trimmed address and prefix that guard and validation saw are what the request carries, the address unmasked and the prefix as a dotted mask |
| DhcpTools.Server.ScopeDelete | tools/dhcp_tools.go:677-732 | the same, with a listing first: refused after it alone iff some scope at the trimmed address is not verified or they fill a page, failed if it is reported failed; the write names that same trimmed address |
| DhcpTools.Server.RangeCreate | tools/dhcp_tools.go:617-675 | the same as the reservation's; permitted only if nothing protected lies between the ends; scope and name are sent when given |
| DhcpTools.Server.RangeDelete | tools/dhcp_tools.go:789-837 | the same; done removes exactly the ranges with these ends |
| DhcpTools.Server.SharedNetworkCreate | tools/dhcp_tools.go:947-989 | the same; done changes no scope, range or reservation |
| DhcpTools.Server.SharedNetworkDelete | tools/dhcp_tools.go:991-1035 | the same, with a listing first: refused after it alone iff some member scope is not verified or they fill a page |
| DhcpTools.Server.GroupCreate | tools/dhcp_tools.go:1037-1078 | the same; done changes no scope, range or reservation |
| DhcpTools.Server.GroupDelete | tools/dhcp_tools.go:1080-1124 | the same, with a listing first: refused after it alone iff some member reservation is not verified or they fill a page |
| DhcpRuns.CascadeSpares | tools/dhcp_tools.go:1246-1253 | what goes along with verified scopes is neither protected nor unverifiable |
| DhcpRuns.AlignedCreateVerified | tools/dhcp_tools.go:525-587 | a permitted, aligned create adds a scope with a known, unprotected extent |
| DhcpRuns.StepConserves | tools/dhcp_tools.go:473-1124 | one call of any tool keeps every guarded row unchanged and adds none but through an unaligned scope create |
| DhcpSession.Dispatch | tools/dhcp_tools.go:172-372 | every tool's call is answered, with exactly its own requests, as its tool promises: refused without a request iff its inputs do not pass, after its listing alone iff its members do not, else done or failed as its write is reported |
| DhcpState.FailureIsLogged | tools/dhcp_tools.go:473-1124 | a call fails only when its last request was reported failed; otherwise it is done iff permitted and else refused |
| DhcpState.SuccessDecides | tools/dhcp_tools.go:473-1124 | a call whose requests all succeed is done iff it is permitted and refused iff not |
| DhcpSession.Serve | tools/dhcp_tools.go:473-1124 | every finite run of the ten tools, from any start and however requests fail: every object that is protected or unverifiable at the start is there unchanged at the end, and none is added but by unaligned creates; with aligned creates the guarded objects are the same; a run whose requests all succeed does exactly the permitted calls and refuses the others; in read-only mode every call is refused and nothing is sent or changed |
| DhcpRuns.RunsConserve | tools/dhcp_tools.go:473-1124 | the same for every sequence of states in which each step is a call refused, failed, or permitted and carried out |
| DhcpRuns.AlignedRunsConserveGuarded | tools/dhcp_tools.go:473-1124 | with aligned creates the guarded scopes, ranges and reservations are the same at both ends of a run |
| DhcpRuns.ReadOnlyRunsChangeNothing | tools/guardrails.go:18-24 | in read-only mode no run changes any state |
| DhcpRuns.CreateGuardIsExactIffAligned | tools/dhcp_tools.go:539-564 | the create guard vouches for the created extent under every configuration iff the address is network-aligned |
| DhcpRuns.UnalignedSpill | tools/dhcp_tools.go:560-564 | for every unaligned address a configuration of well-formed prefixes lets the create through and yet has its extent protected or unknown |
| DhcpRuns.UnalignedCreateExample | tools/dhcp_tools.go:560-564 | one such input, with the extent it creates |
| Backoff.CalculateBackoff | services/retry.go:86-101 | never above the maximum; the server's wait, capped, when it asked for one; otherwise from b to 5b/4 for the capped exponential b; positive whenever a usable Retry-After or settings that fit 64 bits decide |
| Backoff.ExponentialBounds | services/retry.go:91-100 | without a usable Retry-After the wait is between b and 5b/4 and at most the maximum, for b = min(initial*2^min(attempt-1,10), max) |
| Backoff.JitterIsUpToAQuarter | services/retry.go:94-99 | the jitter takes every value below a quarter of b, and below one nanosecond at least, and the wait is b plus the jitter, or the maximum |
| Backoff.WhoAsks | services/retry.go:70-91 | a status other than 429 and 503, or no header, waits as without a response; of these two, a header that is no positive number waits for its date if that is in the future, up to the maximum |
| Backoff.WaitBounds | services/retry.go:70-101 | with any Retry-After, even one whose product overflows, the wait is positive and at most the maximum; settings must fit 64 bits only where no usable Retry-After decides |
| Backoff.AlwaysWaitsIffFits | services/retry.go:86-101 | for any retry limit, every wait is positive iff the last one's product and jitter fit 64 bits, or there is no wait |
| Backoff.LongBackoffGoesNegative | services/retry.go:92-98 | one setting whose eleventh wait is negative and whose first three are not |
| Backoff.HonouredIffSecondsFit | services/retry.go:70-84 | the seconds asked for, a numeral of any length, are waited, up to the maximum, for all settings iff their nanoseconds fit 64 bits |
| Backoff.LongRetryAfterWraps | services/retry.go:74-76 | a concrete header whose product wraps to 290 ms |
| RetryTransport.LastAttemptIsFirstEnd | services/retry.go:188-210 | the deciding attempt is the first that is interrupted, final or last |
| RetryTransport.RetryableErrorsAre | services/retry.go:49-68 | an error is retryable iff it is a timeout, wraps a known error, or its text says one of the four phrases in any case of its letters |
| RetryTransport.Transport.ResolveOptions | services/retry.go:156-175 | each backoff as configured when positive, else 200 ms and 10 s; one more attempt than the retries, one when that would overflow or be none; the limiter as configured |
| RetryTransport.Transport.ReadBody | services/retry.go:103-117 | the whole of what the body still held, or an error: never a truncated body; the body is closed once in any case |
| RetryTransport.Transport.CloneRequest | services/retry.go:119-129 | a request with a reader of its own at the start of the whole body, declared in full length; unchanged when there is no body |
| RetryTransport.Transport.WaitRetry | services/retry.go:131-147 | closes the previous body before sleeping, and fails iff the context ends |
| RetryTransport.Transport.Attempt | services/retry.go:189-209 | one pass ends the request iff it is interrupted, final or last, having done exactly this attempt's events |
| RetryTransport.Transport.RoundTrip | services/retry.go:177-216 | the result and the whole log of events are those of the script's deciding attempt, whatever part of each body the base transport reads; the caller's body is closed once; the code after the loop is not reached |
| RetryRuns.ResultIsFirstFinalOutcome | services/retry.go:188-210 | undisturbed, a request ends with outcome n iff all before are retryable and n is not or is the last permitted |
| RetryRuns.OnlyTheseAreRetried | services/retry.go:37-68 | a request that sends attempt n with attempts left stops there iff the status is none of 429, 502, 503 and 504, or the error no timeout, no known error and without the four phrases |
| RetryRuns.EveryAttemptReplaysTheRequest | services/retry.go:119-210 | the attempts in a request's log are in order, at most the permitted number, and each is handed the same payload |
| RetryRuns.Exchange | services/retry.go:177-216 | of any request through a transport, in terms of its own settings: an unreadable body is never sent; otherwise every attempt is handed the whole original body, a limiter's token directly precedes every attempt or there is none at all, timers stand and last as the settings and responses say, each response is closed once or returned, and the sleep is bounded |
| RetryRuns.OneTokenPerAttempt | services/retry.go:193-199 | each request directly follows a limiter token, one for each attempt |
| RetryRuns.OnlyTheLastIsReturned | services/retry.go:199-209 | the response returned is the last one obtained |
| RetryRuns.EveryResponseIsClosedOrReturned | services/retry.go:131-210 | on every exit each response obtained was closed exactly once, except the returned one, which was not closed |
| RetryRuns.SleepBudget | services/retry.go:131-216 | the timers of a request last at most (attempts-1) * maxBackoff, for all settings, even those whose products wrap |
| RetryWaits.WaitsOfLog | services/retry.go:131-193 | a request sets one timer for each attempt but the first, in the order of the attempts |
| RetryWaits.TimersFollowSettings | services/retry.go:86-147 | timer k is at most the maximum; what the response before it asks for, if it asks; else from b to 5b/4 for b = min(initial*2^min(k-1,10), max) |
| RetryWaits.LogInOrder | services/retry.go:131-199 | right before every later request, or its token, is its timer, and right after every close a timer |
| RetryRuns.WaitsArePositive | services/retry.go:86-101 | if the last wait the retry limit allows fits 64 bits, every timer a request sets is positive, whatever the server asks |
| Listing.ClampLimit | tools/tools.go:341-354 | the limit is kept from 1 to 1000; a non-positive one becomes 50, a larger one 1000 |
| Listing.CommonListHandler | tools/tools.go:356-419 | a filter that does not scan or a negative offset never reaches the appliance; otherwise one request with the effective limit, whose response is closed on every path, and the rows it answered: more are reported iff they reach the limit, and the next offset is the one behind them where 32 bits hold it |
| Listing.PageOutputReports | tools/tools.go:403-417 | a page short of the limit has no more and no next offset; one that reaches it has more, unless its length turns negative in 32 bits |
| Listing.FollowCollects | tools/tools.go:403-417 | from any offset, following next_offset collects the rows from there on in order, to the end or past what 32 bits number |
| Listing.FollowIsComplete | tools/tools.go:403-417 | for totals up to MaxInt32, following from 0 yields exactly the row list: no gap, no repeat, and it terminates |
| Listing.FollowIsShort | tools/tools.go:403-417 | following takes at most one page more than full pages fit in the rows left |
| Listing.LastPage | tools/tools.go:411-417 | no next offset only at the end of the rows or past MaxInt32 |
| Listing.EnvelopeClosesOnlyAtItsEnd | tools/tools.go:113-128 | whatever the body, the closing marker occurs at the end of the envelope, the opening marker right after the note, and neither anywhere else |
| Listing.NeutralizesEachBracket | tools/tools.go:125-126 | text without a bracket stays as it is and each bracket becomes its entity, in order |
| Ipam.TerminalFilter | tools/subnet_tools.go:240-243 | the text `network_start_hostaddr='...' AND network_is_terminal='1'`, with `site_name` added for a space; whatever start address and space hold, it selects exactly the terminal networks that start there, in that space if one is given |
| Ipam.StartFilter | tools/subnet_tools.go:643-646 | the same for all networks, terminal or not |
| Subnets.SizeIsTheBlockCount | tools/subnet_tools.go:283-294 | a size is computable iff the block's address count fits 64 bits, and reads back as that count |
| Subnets.SizeTellsLength | tools/subnet_tools.go:283-294 | blocks of one family with equal sizes have equal lengths |
| Subnets.DisambiguateSubnetsBySize | tools/subnet_tools.go:296-319 | several rows are narrowed to those of the expected size, unless none is |
| Subnets.ResolveMatched | tools/subnet_tools.go:258-280 | one row left decides by its size and then its id: no id, an unusable one, or the positive 32-bit number it spells; no row is no match and several are ambiguous |
| Subnets.DecimalIds | tools/subnet_tools.go:269-276 | an id printed in decimal is usable iff it is from 1 to 2^31-1, and then as what it is |
| Subnets.OneDecision | tools/subnet_tools.go:254-280 | rows decide one way only |
| Subnets.ResolveRows | tools/subnet_tools.go:254-280 | the row that the listed rows single out decides by its id: the only one, if its size does not contradict the prefix, or of several the only one of the size; when none is, several rows are ambiguous and fewer no match |
| Subnets.ResolveSubnetIDByCIDR | tools/subnet_tools.go:223-281 | sends nothing for a text that is no CIDR and else one listing of the terminal networks at the block's start, and fails only when that fails; an id comes back iff the page singles it out; when these networks fit a page, iff all of them do, and then it is the number that one network's id spells, of the prefix's size whenever both are known, a size no other of several has |
| Subnets.ResolutionSpeaksIffItFits | tools/subnet_tools.go:245-258 | for a lookup of any number of candidates: a resolved id speaks for all of them iff they fit one page or the prefix has no computable size |
| SubnetGuards.LookupSubnetExtents | tools/subnet_tools.go:628-670 | the extents of one page of the networks at the address, in order; none for an address that does not read |
| SubnetGuards.ApplySubnetDeleteExtentProtection | tools/subnet_tools.go:672-696 | refuses only if some target's extent is empty or overlaps; when it passes and the targets fit a page, all of them pass, and are known to be unprotected iff all their ends read as addresses |
| SubnetGuards.DeleteGuardSpeaksIffItFits | tools/subnet_tools.go:648-669 | for a lookup of any number of targets: a guard that passes speaks for all of them iff they fit one page |
| SubnetGuards.UnreadableTargetPasses | tools/subnet_tools.go:685-694 | a target of the delete, with an end that does not read, that passes under every configuration and is not verified |
| SubnetGuards.UnreadableSubnetPasses | tools/subnet_tools.go:547-578 | the same for the update guard |
| SubnetGuards.LookupSubnetExtentByID | tools/subnet_tools.go:513-539 | the extent and space of the subnet with that id; refuses only if there is none |
| SubnetGuards.ApplySubnetUpdateProtections | tools/subnet_tools.go:541-578 | passes only if the present extent passes, a resized block is clear and the space is known and not protected, and refuses only if one fails; a subnet that passes is known to be unprotected iff its extent reads, for a resize iff its end does |
| SubnetTools.SubnetServer.CheckSubnetCreateGuardrails | tools/subnet_tools.go:358-369 | refuses iff read-only, the space is protected, or what address and prefix denote is |
| SubnetTools.SubnetServer.SubnetCreate | tools/subnet_tools.go:371-419 | refused without a request iff its inputs do not pass mode, guards and validators; otherwise its one write, with address, prefix, space and name as given, is sent, and it is done iff that succeeds; it fails only when the write is reported failed, and then changed nothing or did what it asked |
| SubnetTools.SubnetServer.SubnetUpdate | tools/subnet_tools.go:580-626 | the same, with a lookup first when anything is protected: refused after it alone iff there is no such subnet or it does not pass, failed if it is reported failed; the write carries name, trimmed length and class where they are given |
| SubnetTools.SubnetServer.ValidateSubnetUpdateInput | tools/subnet_tools.go:474-497 | accepts iff the id is positive, the texts are NUL-free, a prefix given spells a number from 0 to 128, and something is to change |
| SubnetTools.SubnetServer.SubnetDelete | tools/subnet_tools.go:421-472 | the same, with a listing first when subnets are protected: refused after it alone only if some target does not pass, and done, when the targets fit a page, only if all do |
| SubnetTools.SuccessDecides | tools/subnet_tools.go:358-626 | a call whose requests all succeed is done if it must be let through and refused if it may not be; what fits a page is done iff permitted |
| SubnetRuns.StepKeepsSpaces | tools/subnet_tools.go:381-626 | one call of any of the three keeps every network in a protected or unknown space, and adds none |
| SubnetRuns.StepKeepsExtents | tools/subnet_tools.go:381-626 | one call, other than a delete of more targets than a page holds, keeps every network that overlaps a protected subnet or has no extent, and adds none |
| SubnetRuns.Serve | tools/subnet_tools.go:358-626 | over every session of the three tools, however requests fail: networks in protected or unknown spaces are the same at the end; if each delete's targets fit a page, networks that overlap a protected subnet or have no extent are the same at the end; requests that all succeed decide every reply; in read-only mode every call is refused and nothing is sent or changed |

## Left out

- DhcpTools.Server.RunDhcpScopeExtentQuery: the HTTP request and the log lines are not modelled; a nil response counts as an empty page.
- RetryTransport.Transport.RoundTrip: the timer and the limiter are answers of the script, and request fields other than body and length, `GetBody` among them, are not modelled.
- Backoff.CalculateBackoff: the random source and the time left to a Retry-After date are inputs; HTTP dates are not parsed.
- Listing.CommonListHandler: JSON and error wording are not modelled.
- Ipam.SubnetAdded: names and classes are part of the requests sent, but not of a network row.
- SubnetGuards.ApplySubnetDeleteExtentProtection: says nothing of targets past the page when they do not fit it, because the code does not look at them.
- DhcpSession.Serve: IPv6 addresses with a zone are outside the theorem. Go reads such text as a valid address and `Prefix.Contains` is false for it, so the address guard and the validators both let it through; an address here has no zone, and no `Ipv6Text` reads such text as Go does.
- IPv6 text syntax and the text of IPv4-mapped addresses are behind the reader and printer of `NetipText.Ipv6Text`.
- A nil `Guardrails` or a nil client, which switch the guards off, are not modelled.
- Concurrent callers that change the appliance between a guard's lookup and the delete; the code makes no claim about them.
- Protected zones, VLAN, DNS, address and space tools, and the domain and TTL validators: mostly single checks that would add easy members only. Deleting a space is not subnet-guarded and is outside the subnet sessions.
- HTTP, TLS, the SDK client, the MCP server, logging, prompts, resources and configuration: input and output.
