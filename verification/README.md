# Verified model of mod_botshield's core

A Dafny model of the parts of the mod_botshield Apache module where the correctness argument is
longer than the code: bot matching, bot rate limits, the session cookie, the lock-free protocols
between workers, form decoding and the proof of work. `dafny verify dfyconfig.toml` checks
everything.

## What is modelled, and what is proved

**Bot directory** (`Text`, `AhoCorasick`, `AcBuild`, `BotDirectory`). Patterns are inserted into a
growable trie, a breadth-first pass over an array queue computes failure links and propagates
outputs, and a lookup walks the result. Proved: every failure link is the longest proper suffix
that is a trie prefix, every output the longest pattern ending there (lowest index on ties); the
queue never overflows and holds every non-root node once, in depth order; the branch for
`next_via_f == v` is never taken (asserted where it stands); a lookup hits exactly when a non-empty
pattern occurs, and returns the longest pattern at the earliest end; it follows at most one failure
link per byte in total. The fast path and the `strcasestr` fallback agree on hit or miss exactly
when the table has no empty pattern or some non-empty one occurs; they may name different entries.

**Crawler classifier** (`UaClassifier`). Heap nodes with child arrays grown by doubling. The query
returns the name last registered for the longest registered pattern that occurs, earliest start on
equal length, and nothing exactly when none occurs.

**Bot rate limits at start-up** (`SlotPool`, `RobotsClaims`, `BotRate`, `RateSlots`). Four passes
over a slug table and a shared cursor are proved equal to one precedence rule, provided the pool
suffices; when it suffices is itself an if-and-only-if on the number of counters the rule calls
for. The robots.txt claim walk gives each slug the lexicographic maximum of token length and delay,
earliest on ties, whatever the order of the groups. Over all allocators in `post_config` order, for
any list of virtual hosts that may share rule entries, no slot index has two holders, and everybody
is served until the pool runs out.

**Bot rate limits at request time** (`RateCheck`). The choice of counter, the admission by
compare-and-swap, and the three-tier charge loop. What other workers do to the shared words is
arbitrary: each loaded word is an input, so a statement for all inputs is one for all schedules.
Proved: in true time, when an admission refuses, counts, or starts a window, and that windows are
their full length apart; a request meets its own budget, its botgroup's and the grand total, in that
order; each is charged on its own account, and the first refusing one is reported; Retry-After is the
least whole number of seconds that outlasts every refusing window, across wraparound of the 32-bit
clock, and a client that waits it out on an untouched window is admitted. For one tier, whatever its
window, the exact condition is that the window's true age is between 0 and 2^32 ms and rounding up
does not wrap (which takes a window above 2^32 - 1000 ms; a directive takes at most a day,
`src/bot_rate.c:56-72`), or that one second is right anyway. The code can miss the lower bound: the
loop reads its clock before the admissions read theirs, so another worker can roll a window in
between (`RateCheck.RolledMeanwhile`).

**Session cookie** (`Codec`, `AlgorithmTable`, `Cookie`, `Session`). Printer, in-place splitter,
strict parser, two-key verification, carry-forward, key rotation. Proved: printed and parsed back, a
challenge comes out the same exactly when it is well-formed; an accepted text is the printed form up
to the letter case of its two hexadecimal fields; a text without exactly eleven bars is refused; the
parser names the first thing wrong. AES-GCM is an ideal authenticated cipher (a vault of sealed
envelopes) and base64 an exact codec. The reputation is carried exactly when the envelope
authenticates under either key, parses and has not expired, whatever the counter. If a key stays in
the pair for longer than a time-to-live after it stops being primary, every cookie reads as exactly
what was minted until it expires; staying for any shorter time is not enough. (A cookie is still
good in the second it expires, so a stay of exactly one time-to-live is a second short.)

**Lock-free protocols.** `Generations` is the publish/drain swap shared by three subsystems, as
interleaved steps of one publisher and any number of readers: a reader that finishes before the
second publish after its load never touches a destroyed generation, and that bound is exact; no
generation is destroyed twice; at most two are live between publishes. `CvSlots` is the packed
window counter, for rates and for log suppression. `Inflight` is the semaphore around captcha
verification and the guarded call that releases it.

**Tiers** (`Tiers`). The tier decision and the next reputation record. A client that keeps its
cookie meets at most four challenges, whatever is demanded; the bound is met from every starting
record; without the captcha clamp there is none.

**Form bodies and proof of work** (`FormBody`, `Pow`). The in-place decoder inverts the encoder, and
looking a key up in a serialized form gives its first value. The nibble test is a numeric bound, and
exactly 2^(256-4d) digests pass difficulty d.

## Where the code and its description differ

The model follows the code.

- `src/challenge.c:39-51` and `src/challenge.c:60-69` describe 15 and 13 fields;
  `src/challenge.h:87-88` and the format string have 12, at version 7.
- `src/captcha.c:1415-1416` says that a just-expired cookie's reputation is carried;
  `src/cookie.c:614-621` refuses it.
- The publish functions accept NULL and would count it as built (`Generations.NullIsCounted`). No
  caller passes NULL (`src/config.c:1465`, `1841`, `1859`, `1942`; `src/allowlist.c:828`,
  `src/bot_directory.c:642`, `src/browser_classifier.c:384`), so built = freed + live in every run of
  this program (`Generations.BuiltIsFreedOrLive`).
- A client last served the automatic tier is asked an interactive question twice before its answer
  is credited (`Tiers.SolveSettlesDemand`): the envelope credits the tier of the cookie before it.
- A directory with several rows for one slug takes one slot per row under a per-slug rule window,
  the last row's slot being used; the bot-rate wildcard takes one per slug.
- A budget of zero still admits the first request of each window (`RateCheck.WindowBudget`).
- In the field parser the count check comes first here; the code makes it after the surface-form
  loop has read the fields (`src/cookie.c:423-453`).

## Model

| member | source | states |
|---|---|---|
| `Text.FoldedSearch` | src/bot_directory.c:156-157 | Searching the folded texts finds a place exactly where the unfolded ones agree but for the case of letters. |
| `Text.SuffixNest` | src/bot_directory.c:331-337 | Of two suffixes of one word the shorter is a suffix of the longer. |
| `AhoCorasick.FindEdge` | src/bot_directory.c:68-74 | Returns the target of the edge on a byte, -1 exactly when there is none. |
| `AhoCorasick.PrefixClosed` | src/bot_directory.c:291-317 | Every prefix of a trie label is the label of a node. |
| `AhoCorasick.BestOfLongest` | src/bot_directory.c:141-147 | The output of the node spelling the longest suffix in the trie is the best pattern ending the whole text. |
| `AhoCorasick.OutputPropagates` | src/bot_directory.c:368-371 | Keeping an own output, else copying the failure target's, gives the longest pattern that is a suffix of the label. |
| `AhoCorasick.FailStep` | src/bot_directory.c:130-135 | Falling back along a failure link skips no suffix that could be extended by the next byte. |
| `AhoCorasick.FollowFailures` | src/bot_directory.c:130-135 | The failure walk ends at the root or at a node with an edge on the byte, missing no longer suffix; each step lowers the depth, so steps plus final depth are at most the starting depth. |
| `AhoCorasick.SuccessorIsLongest` | src/bot_directory.c:136-137 | The node then reached spells the longest trie prefix that is a suffix of the extended text. |
| `AcBuild.WalkIn` | src/bot_directory.c:293-312 | Walking a pattern in keeps the trie shape and ends at the node that spells exactly the pattern. |
| `AcBuild.MarkKeeps` | src/bot_directory.c:313-316 | Marking a terminal only when unmarked gives each label the lowest index among equal patterns. |
| `AcBuild.InsertAll` | src/bot_directory.c:288-317 | After all insertions every non-empty pattern is spelled, each label marked with the first pattern equal to it. |
| `AcBuild.FailTarget` | src/bot_directory.c:356-367 | Computes the longest proper suffix of the child's label that is a label; the self-link branch is never taken. |
| `AcBuild.LinkChild` | src/bot_directory.c:352-371 | Gives one child its failure link and output, and touches no other node. |
| `AcBuild.QueueFits` | src/bot_directory.c:327-346 | Distinct non-root nodes in the queue are fewer than the nodes, so the array never overflows. |
| `AcBuild.SeedQueue` | src/bot_directory.c:330-339 | The root's children, failing to the root, start the frontier. |
| `AcBuild.VisitNode` | src/bot_directory.c:349-373 | Links and enqueues every child of one node, leaving the queue before it as it was. |
| `AcBuild.LinkFailures` | src/bot_directory.c:327-374 | After the pass every non-root node is linked and labelled with its output, and the queue held each exactly once in order of depth. |
| `AcBuild.Build` | src/bot_directory.c:259-374 | From any pattern list the builder makes a correct automaton. |
| `BotDirectory.FirstHitUnique` | src/bot_directory.c:125-149 | There is at most one longest pattern at the earliest end: the table fixes the answer. |
| `BotDirectory.FirstHitMeans` | src/bot_directory.c:139-145 | On the text itself: no non-empty pattern ends before the hit, the named one does there, and any other that does is shorter, or as long and later in the table. |
| `BotDirectory.NoEndingNoOccurrence` | src/bot_directory.c:138-148 | A scan with no output at any prefix means no pattern occurs anywhere. |
| `BotDirectory.Advance` | src/bot_directory.c:126-138 | One byte keeps the current node the longest suffix in the trie, and failure steps are paid for by depth. |
| `BotDirectory.Scan` | src/bot_directory.c:124-149 | Misses only when no non-empty pattern occurs, hits the longest pattern at the earliest end, and follows at most one failure link per byte in total. |
| `BotDirectory.Sequential` | src/bot_directory.c:156-161 | The fallback returns the first entry whose pattern occurs, an empty one included. |
| `BotDirectory.MakeState` | src/bot_directory.c:551-571 | A wrapped table carries a correct automaton; an empty table gets none. |
| `BotDirectory.IsKnownBot` | src/bot_directory.c:106-162 | Both paths: a hit exactly when a pattern occurs; the first hit on the fast path, the first entry on the fallback. |
| `BotDirectory.PathsAgree` | src/bot_directory.c:120-161 | The two paths agree on hit or miss exactly when there is no empty pattern or some non-empty one occurs. |
| `BotDirectory.PathsNameDifferentEntries` | src/bot_directory.c:139-145 | A table and a text on which the two paths name different entries. |
| `UaClassifier.TrieNode.Walk` | src/allowlist.c:73-80 | Follows the edge on a folded character, if there is one. |
| `UaClassifier.TrieNode.GetOrAdd` | src/allowlist.c:82-106 | Returns the existing edge, else appends a fresh leaf; growing the array loses and reorders no edge. |
| `UaClassifier.FindNone` | src/allowlist.c:87-89 | The search fails exactly when no edge is on the character. |
| `UaClassifier.DeadEnd` | src/allowlist.c:150-151 | Where a node has no edge on a character, no node spells its word extended by it. |
| `UaClassifier.LeafAdded` | src/allowlist.c:101-105 | A fresh leaf keeps the trie a trie. |
| `UaClassifier.Classifier.constructor` | src/allowlist.c:65-71 | A new classifier is valid and has nothing registered. |
| `UaClassifier.Classifier.Step` | src/allowlist.c:113-116 | One step of an insertion keeps the trie and reaches the node spelling one character more. |
| `UaClassifier.Classifier.Add` | src/allowlist.c:108-122 | Registers exactly the folded pattern, replacing an earlier name, and refuses an empty one. |
| `UaClassifier.Classifier.SetName` | src/allowlist.c:117-119 | Naming a node registers exactly the word it spells. |
| `UaClassifier.Classifier.Classify` | src/allowlist.c:135-160 | Returns the name of the longest registered pattern occurring in the text, earliest start on equal length, and nothing only when none occurs. |
| `UaClassifier.Classifier.ClassifyFrom` | src/allowlist.c:147-157 | The walk from one start extends the running best over every match at that start. |
| `UaClassifier.Classifier.NoLongerMatch` | src/allowlist.c:150-151 | Where the walk dies, no longer match starts at the same position. |
| `UaClassifier.MatchOccurs` | src/allowlist.c:159 | With no match anywhere, no registered pattern occurs. |
| `RobotsClaims.Enter` | src/bot_rate.c:425-443 | One claim against the table keeps each slug's entry the strongest claim, earliest among equals. |
| `RobotsClaims.Contest` | src/bot_rate.c:427-443 | A claim replaces the entry exactly when the entry is weaker: shorter, or as long with a smaller delay. |
| `RobotsClaims.FirstClaim` | src/bot_rate.c:438-443 | The first claim on a slug is entered. |
| `RobotsClaims.EnterGroup` | src/bot_rate.c:415-445 | One group adds the claims of its non-empty tokens and no other. |
| `RobotsClaims.ClaimWalk` | src/bot_rate.c:411-446 | After the walk the table holds, for exactly the slugs somebody claims, the governing claim. |
| `RobotsClaims.GovernsUnique` | src/bot_rate.c:428-437 | Only one claim governs a slug. |
| `RobotsClaims.InClaims` | src/bot_rate.c:413-424 | A claim is made exactly when a named group has a non-empty token of that length resolving to the slug. |
| `RobotsClaims.StrongestClaim` | src/bot_rate.c:301-320 | The governing claim is lexicographically at least any group's (token length, delay) on the slug. |
| `RobotsClaims.EarliestClaim` | src/bot_rate.c:432-437 | Of groups that claim a slug equally strongly, the first in the document governs. |
| `RobotsClaims.OrderIrrelevant` | src/bot_rate.c:301-320 | Permuting the groups changes no slug's winning length and delay. |
| `SlotPool.Pool.constructor` | src/config.c:2633 | The cursor starts at zero with nothing handed out. |
| `SlotPool.Pool.Take` | src/bot_rate.c:265-274 | Hands the next slot to an owner that has none, or nothing when the pool is exhausted. |
| `SlotPool.Pool.Reserve` | src/config.c:1741-1750 | Reserves a contiguous block, clipped to what is left. |
| `BotRate.FindRobotsWildcard` | src/bot_rate.c:387-407 | The robots.txt wildcard is the largest positive delay of a wildcard group, first on ties. |
| `BotRate.WonBy` | src/bot_rate.c:449-461 | The slugs a group won are exactly those whose governing claim is its own. |
| `BotRate.Allocate` | src/bot_rate.c:259-280 | One counter for a list of slugs, mapping exactly them, or a record that the pool ran out. |
| `BotRate.PassRobots` | src/bot_rate.c:463-504 | After pass 0 the table is the rule restricted to robots groups. |
| `BotRate.PassSpecific` | src/bot_rate.c:572-603 | After pass 1 the table is the rule restricted to robots groups and directives, the last directive winning. |
| `BotRate.PassBotgroup` | src/bot_rate.c:610-630 | Pass 2 adds a counter per slug not yet mapped, under the first botgroup rule covering it. |
| `BotRate.EntrySlugs` | src/bot_rate.c:614-629 | One botgroup rule: its unmapped slugs in order, abandoned when the pool runs out. |
| `BotRate.PassWildcard` | src/bot_rate.c:636-651 | Pass 3 adds a counter per directory slug still unmapped, when there is a wildcard. |
| `BotRate.Aggregates` | src/bot_rate.c:652-672 | The four aggregates exist exactly when there is a wildcard and room. |
| `BotRate.GroupTotals` | src/bot_rate.c:695-720 | One shared counter per botgroup named by a scope=group rule, with the first rule's limit. |
| `BotRate.GrandCeiling` | src/bot_rate.c:746-761 | The total ceiling has a counter exactly when a rule asks for it and there is room. |
| `BotRate.RunPasses` | src/bot_rate.c:539-764 | All passes together build the completed rule. |
| `BotRate.InitVhost` | src/bot_rate.c:508-764 | For one host: claims, passes and aggregates over the wildcard of its first wildcard rule, else that of robots.txt unless the implicit limits are declined. |
| `BotRate.Precedence` | src/bot_rate.c:552-636 | The completed rule spelled out: last specific directive, else governing robots group with a delay or a wildcard to be exempt from, else first botgroup rule, else wildcard; each exactly when those before it do not apply. |
| `BotRate.WildcardReaches` | src/bot_rate.c:636-651 | A directory slug no other rule covers gets a counter of its own at the limit of the host's first wildcard rule, else of the robots.txt wildcard. |
| `BotRate.TotalLimits` | src/bot_rate.c:182-192 | The botgroup and grand totals have the limit of the first rule that asks for them. |
| `BotRate.TableIsRule` | src/bot_rate.c:368-505 | With a pool that suffices, a slug is mapped exactly when the rule names a counter, with that owner and limit. |
| `BotRate.SharedCounter` | src/bot_rate.c:569-571 | Two slugs share a counter exactly when the rule gives them the same owner. |
| `BotRate.NeededIs` | src/bot_rate.c:463-761 | The counters called for, listed from the configuration: governing robots groups with a limit, directives, slugs under a botgroup rule or the wildcard, the shared ones. |
| `BotRate.PoolSuffices` | src/bot_rate.c:256-272 | The pool suffices exactly when it has room for those counters, and then exactly that many are taken. |
| `RateSlots.WireRows` | src/config.c:1536-1549 | A per-slug rule takes one slot per directory row while the pool lasts, and covers every slug if it does. |
| `RateSlots.WireRule` | src/config.c:1522-1566 | A rule with a budget gets a window once, left alone if it has one; every other rule keeps its slots. |
| `RateSlots.WireAll` | src/config.c:1520-1572 | Every rule of every host has its window unless the pool is exhausted. |
| `RateSlots.ReserveRobots` | src/config.c:1732-1750 | Every host with a robots.txt gets a pool of its own, whole or what was left. |
| `RateSlots.InitRates` | src/bot_rate.c:508-538 | Every host's table is what the passes build for it, on slots of its own. |
| `RateSlots.PostConfig` | src/config.c:2633-2645 | Over all allocators: no slot index is held in two places, all are below the cursor, the cursor counts the slots handed out, and everybody is served until the pool runs out. |
| `RateSlots.LedgerBacks` | src/config.c:1520-1572 | Every place that holds a slot is the owner the pool gave it to. |
| `RateCheck.WindowBudget` | src/policy.c:121-161 | Whatever the schedule, a window has admitted exactly its count since its roll, and at most the budget, or one if that is zero. |
| `RateCheck.AdmissionsFormHistory` | src/policy.c:147-158 | Successive admissions whose swaps each succeed over the word installed before are a history in that sense. |
| `RateCheck.ZeroWindowAdmits` | src/bot_rate.c:52-55 | A window of length zero never refuses. |
| `RateCheck.Admit` | src/policy.c:121-161 | Refuses exactly when some attempt before a successful swap finds the window full; otherwise installs the charge of the word it won on, or nothing after 32 lost swaps. |
| `RateCheck.AdmitsInTime` | src/policy.c:142-149 | In true time: refused exactly when an attempt finds a window that has not run its length with the budget used up; a swap starts a window exactly when the old one has run its length, and else counts one more. |
| `RateCheck.RollsApart` | src/policy.c:142-149 | Two swaps that start windows are at least a window's length of true time apart. |
| `RateCheck.ChargeTiers` | src/bot_rate.c:891-915 | Reports the first refusing tier and the longest wait among those refusing; every tier with a slot is charged on its own account. |
| `RateCheck.FirstTripIs` | src/bot_rate.c:902-905 | The reported tier refuses, and none before it does; none is reported only when none refuses. |
| `RateCheck.LongestIs` | src/bot_rate.c:906-914 | The wait reported is that of some refusing tier and no less than any other's; it is zero exactly when none refuses. |
| `RateCheck.ChargedOnce` | src/bot_rate.c:868-873 | Whatever the other tiers decided, the swaps made are, in order and without repetition, exactly those each tier's own admission installs. |
| `RateCheck.WaitExact` | src/bot_rate.c:906-914 | For every 32-bit window, a tier's wait is the least whole number of seconds that outlasts it exactly when its true age is in 0 to 2^32 ms and rounding up does not wrap, or one second is both true and said. |
| `RateCheck.RetryOutlasts` | src/bot_rate.c:874-876 | With windows begun before the clock reading and within 2^32 ms, and up to 2^32 - 1000 ms long, the Retry-After of a 429 or 503 is the least whole number of seconds that outlasts every refusing window. |
| `RateCheck.WaitedIsAdmitted` | src/bot_rate.c:874-876 | A client that waits it out is admitted by every tier that refused it and whose window nobody touched. |
| `RateCheck.RolledMeanwhile` | src/bot_rate.c:893-915 | A request whose only tier refuses after another worker rolled its window just behind the clock reading: it is answered 429 with one second where a minute remains. |
| `RateCheck.ChooseHolder` | src/bot_rate.c:786-828 | Own counter by known slug, then by verified name, then no-ua, unknownbot, fake-bot, then the fallback for a named bot. |
| `RateCheck.ChargedByRule` | src/bot_rate.c:791-800 | From configuration to request: a bot is charged to the counter the rule names for its slug, else for its verified name. |
| `RateCheck.ChargedInCommon` | src/bot_rate.c:801-828 | A client the rule says nothing about has a shared counter exactly when there is a wildcard and something is known of it: no-ua before unknownbot before fake-bot, the fallback for a named bot that is none of these. |
| `RateCheck.Check` | src/bot_rate.c:885-972 | Own counter, botgroup's total and grand total, in that order, each if present: let through exactly when each admits; the first to refuse decides between 429 and 503, or is only noted in its own rule's mode; each slot is charged what its own admission installs. |
| `RateCheck.BlameIsFair` | src/bot_rate.c:877-884 | Let through exactly when no tier refuses; 429 only when the bot's own tier refuses, 503 only when it does not and a wider one does. |
| `Codec.StrictIntForm` | src/cookie.c:392-408 | Accepts exactly what the printer emits for some non-negative integer (with a minus sign in front where allowed). |
| `Codec.StrictIsDecimal` | src/cookie.c:390-408 | Digits without a leading zero are exactly the printed integers. |
| `Codec.ReadInt` | src/crypto.c:387-443 | On a strict field, succeeds exactly on the printed integers in range and gives the integer; the length cap refuses only what is out of range. |
| `Codec.ToHex` | src/crypto.c:221-229 | The buffer holds the lowercase hexadecimal form. |
| `Codec.DigitsBySight` | src/crypto.c:223 | The digits printed are 0-9 and a-f, by value. |
| `Codec.FromHex` | src/crypto.c:231-249 | Succeeds exactly on a spelling, in either case, of that many bytes, and gives them. |
| `Codec.HexInjective` | src/crypto.c:221-229 | Different byte strings print differently. |
| `Codec.SplitInPlace` | src/cookie.c:540-552 | Each recorded start holds, as a C string in the cut buffer, one field of the split text, at most the given number of fields. |
| `Codec.JoinSplit` | src/cookie.c:540-552 | Joining the split fields gives the text back. |
| `Codec.SplitJoin` | src/cookie.c:540-552 | Splitting joined bar-free fields gives the fields back. |
| `AlgorithmTable.AlgorithmsAreSound` | src/challenge.c:194-208 | The registry has no repeated name, and no name holds a bar or a NUL. |
| `AlgorithmTable.FindAlgorithm` | src/challenge.c:210-218 | Finds a row of that name, or nothing exactly when there is none. |
| `AlgorithmTable.KindByName` | src/challenge.c:194-208 | sha256zeros asks for work, session and the six captcha names for any counter, and no other name is in use. |
| `Cookie.AllStrict` | src/cookie.c:418-438 | The gate passes exactly when every integer field has the printed form. |
| `Cookie.ReadHead` | src/cookie.c:439-462 | Version, algorithm, salt and nonce, with the first thing wrong. |
| `Cookie.ReadRep` | src/cookie.c:467-484 | The reputation block and auto marker, with the first thing wrong. |
| `Cookie.ParseFields` | src/cookie.c:410-485 | Succeeds exactly on the fields of a well-formed challenge, up to hexadecimal case, and gives it; otherwise names the first thing wrong. |
| `Cookie.ReadsIsRight` | src/cookie.c:410-485 | Nothing is wrong with the fields of a challenge, so success and complaint exclude each other. |
| `Cookie.ReadsUnique` | src/cookie.c:410-485 | The same fields never read as two challenges. |
| `Cookie.ParsePlaintext` | src/cookie.c:540-556 | Splitting the decrypted buffer in place and parsing the pieces is parsing the split text. |
| `Cookie.RoundTrip` | src/challenge.c:52-77 | A printed challenge parses back to itself exactly when it is well-formed. |
| `Cookie.CanonicalIs` | src/challenge.c:67-76 | The printed form spelled out, twelve fields in order. |
| `Cookie.Reprints` | src/cookie.c:369-391 | An accepted text is its challenge's printed form but for the case of salt and nonce, and is the printed form itself when those are lowercase. |
| `Cookie.OneForm` | src/cookie.c:369-391 | Two texts accepted as one challenge differ in letter case only. |
| `Cookie.ElevenBars` | src/cookie.c:451-453 | A text with too many or too few fields is refused, whatever the fields. |
| `Session.OpenEnvelope` | src/cookie.c:508-528 | Primary key, then secondary: opens exactly what was sealed under either. |
| `Session.CheckCounter` | src/challenge.c:95-185 | The counter is accepted exactly when it proves the work, or is non-empty for algorithms without proof of work; empty, too long and too few zeros are told apart. |
| `Session.CounterByName` | src/challenge.c:194-208 | With the real table: a sha256zeros cookie is accepted exactly on 1 to 64 bytes whose digest passes, a session or captcha cookie on any non-empty counter, and no well-formed cookie has another name. |
| `Session.VerifyCookie` | src/cookie.c:489-582 | The challenge comes out exactly when the envelope authenticates and its text parses; acceptance, expiry and every refusal, down to what is wrong with the counter, each in its own situation. |
| `Session.CarryIff` | src/cookie.c:614-621 | Reputation is carried exactly when the cookie authenticates, parses and has not expired, whatever the counter. |
| `Session.CarryForward` | src/cookie.c:631-639 | The carried challenge is the authentic, unexpired one; without one nothing is carried. |
| `Session.IssueChallenge` | src/challenge.c:304-343 | The issued challenge field by field; it is well-formed exactly when its difficulty, expiry, algorithm and carried reputation are. |
| `Session.WireCarries` | src/cookie.c:158-168 | The wire form splits at its last dot into the envelope and the counter put in. |
| `Session.ReadableUntilExpiry` | src/cookie.c:508-561 | When keys outstay a time-to-live, each minted cookie authenticates as exactly its challenge until it expires, with any counter. |
| `Session.CarriedUntilExpiry` | src/cookie.c:590-639 | A cookie sent back has exactly its challenge carried while unexpired, and nothing afterwards. |
| `Session.OnlyMinted` | src/cookie.c:512-533 | In any run, whatever authenticates carries an envelope minted for exactly that challenge under a key still held. |
| `Session.GraceExact` | src/cookie.c:557-558 | For every shorter stay some run loses an unexpired cookie. |
| `Generations.ReaderSafe` | src/bot_directory.c:576-600 | A reader that finishes before the second exchange after its load never holds a destroyed generation. |
| `Generations.LateReaderUnsafe` | src/bot_directory.c:579-584 | A reader that outlives two publishes can hold a destroyed one: the bound is exact. |
| `Generations.DestroyedOnce` | src/allowlist.c:758-775 | No generation is destroyed twice; the active and the parked one never are. |
| `Generations.Accounting` | src/browser_classifier.c:327-342 | At most two generations are live between publishes; built exceeds freed plus live by exactly the publishes of NULL. |
| `Generations.BuiltIsFreedOrLive` | src/bot_directory.c:589-600 | In every run that publishes only what was built, as all callers do, built equals freed plus live. |
| `Generations.NullIsCounted` | src/bot_directory.c:589-591 | A publish of NULL, which the functions accept, would be counted as built. |
| `Generations.FreeKeeps` | src/bot_directory.c:597-600 | Freeing takes exactly the drained generation out of the live ones. |
| `Generations.Registry.Publish` | src/bot_directory.c:576-600 | Run alone, publish is the four protocol steps; the parked state is destroyed, the active one parked, the new one active. |
| `CvSlots.PackParts` | src/captcha.c:831-834 | Packing keeps the low 20 bits of the count and the low 44 of the minute. |
| `CvSlots.Conservation` | src/captcha.c:934-972 | In any run of logging workers, the counts carried by the lines logged plus the count in the slot equal the events recorded, exactly when no window ever took 2^20 of them. |
| `CvSlots.AllTallied` | src/captcha.c:945-969 | The retired and recorded tallies are the sums over the workers' own outcomes. |
| `CvSlots.EmitReports` | src/captcha.c:945-969 | A worker that logs carries exactly the count its roll retires; one that suppresses adds one; one that gives up changes nothing. |
| `CvSlots.RateBound` | src/captcha.c:853-883 | Under a fixed limit below 2^20 the count is exactly the swaps since the last roll and never exceeds the limit. |
| `CvSlots.DecisionByMinute` | src/captcha.c:860-882 | Refused exactly on a word of the worker's own minute at its limit; a swap counts one more in the slot's minute and starts with one in another; a log worker is suppressed in the first case and logs the old count in the second. |
| `CvSlots.OneMinute` | src/captcha.c:860-869 | In any run the slot's count is the number of swaps by workers of the minute it holds since the last swap of another minute, to 20 bits. |
| `CvSlots.MinuteLimit` | src/captcha.c:866-868 | Under a fixed limit workers of one minute never make more swaps than that without one of another minute in between. |
| `CvSlots.RefusedInMinute` | src/captcha.c:866-867 | A worker is refused only on a word that was in the slot, held its minute and had its limit used up. |
| `CvSlots.LimitNeedsRoom` | src/captcha.c:866-868 | A window can fill exactly when the limit is below 2^20. |
| `Inflight.WordCountsHolders` | src/captcha.c:1030-1059 | The word is the counted holders less the uncounted releases, and every worker releases exactly as often as it acquires. |
| `Inflight.NeverAboveCap` | src/captcha.c:902-922 | With positive caps the word is the number of verifications in flight and never exceeds the cap. |
| `Inflight.AcquireDecides` | src/captcha.c:905-915 | An acquire with room and no interference succeeds; it fails only on a word at its cap or on losing its last attempt. |
| `Inflight.RefusedWhenFull` | src/captcha.c:902-916 | In any run a worker is turned away only if its cap was in use at some state or its eighth attempt lost the swap. |
| `Inflight.ZeroCapBreaksTheWord` | src/captcha.c:904 | With a cap of zero the release takes the word below zero. |
| `Tiers.ScoreFloor` | src/botshield.c:2007-2025 | The floor is the highest tier of a row whose score is reached, or none. |
| `Tiers.Decide` | src/botshield.c:2030-2094 | With d the larger of score floor and rule floor: a captcha without a provider is served as Interactive, anything else as itself; nothing is served exactly when challenges are off, d is Pass, or the record holds a bit for what would be served, or a higher one. |
| `Tiers.NextRecord` | src/botshield.c:2219-2263 | Bit by bit: a first challenge is credited in advance, a later one credits the tier the prior cookie was served under, no bit is lost, and the marker tells whether this one is automatic. |
| `Tiers.EachChallengeCounts` | src/botshield.c:2066-2077 | Each challenge served lowers a rank on pass bits and auto flag. |
| `Tiers.FewChallenges` | src/botshield.c:2055-2077 | Over any run of demands at most four challenges are served. |
| `Tiers.BoundIsMet` | src/botshield.c:2219-2263 | From every record some run meets the bound. |
| `Tiers.SolveSettlesDemand` | src/botshield.c:2239-2257 | A solve settles the same demand at once exactly when the client was not last served the automatic tier, or the demand is the automatic one. |
| `Tiers.LoopsWithoutClamp` | src/botshield.c:2038-2053 | Without the clamp a captcha floor with no provider challenges on every request. |
| `FormBody.ReadNext` | src/captcha.c:1072-1099 | The branches at one position decode one unit: plus, a percent escape other than %00, or a literal. |
| `FormBody.UrlDecodeInPlace` | src/captcha.c:1067-1102 | The buffer ends up holding the decoded string, never longer than the input, with the write index never past the read index and nothing behind the input touched. |
| `FormBody.DecodeNulFree` | src/captcha.c:1084-1093 | Decoding makes no NUL. |
| `FormBody.UnitBySight` | src/captcha.c:1072-1099 | A plus is a space, a percent sign with two hexadecimal digits other than 00 its byte, and anything else itself. |
| `FormBody.DecodeUnchanged` | src/captcha.c:1064-1066 | The decoder leaves a string alone exactly when it holds no plus and no such escape. |
| `FormBody.DecodeEncode` | src/captcha.c:1064-1102 | Decoding undoes encoding on every NUL-free byte string. |
| `FormBody.EncodedKeyIs` | src/captcha.c:1183 | An unreserved key matches the encoding of exactly itself. |
| `FormBody.FormField` | src/captcha.c:1172-1189 | One segment: its value if it has the key, else where to go on. |
| `FormBody.FormGet` | src/captcha.c:1168-1192 | Returns the decoded value of the first field with the key, or none. |
| `FormBody.FirstField` | src/captcha.c:1165-1191 | On any body, well-formed or not: the first segment whose text before its first = is the key, and nothing exactly when there is none. |
| `FormBody.LookupSerialize` | src/captcha.c:1165-1192 | Looking a key up in a serialized form gives the first value stored under it. |
| `Pow.LeadingZeros` | src/challenge.c:114-124 | The byte and nibble test passes exactly when the digest, big-endian, is below 16^(64-d). |
| `Pow.VerifySha256Zeros` | src/challenge.c:95-125 | Accepts exactly a non-empty counter of at most 64 bytes whose digest meets the difficulty; each refusal told apart. |
| `Pow.PassesDownward` | src/challenge.c:114-124 | A digest that meets a difficulty meets every lower one. |
| `Pow.PassCount` | src/botshield.h:59-60 | Exactly 16^(64-d) of the 2^256 digests pass difficulty d. |

## Left out

- RateCheck.Check: the botgroup total that applies to a holder is an input; start-up wires it by hash iteration, so it is not determined for a directive whose slugs span botgroups (src/bot_rate.c:722-744). Request totals and the sampled User-Agent are statistics.
- BotRate.InitVhost: the directory's slug resolution is a function parameter, and the mode of a group is part of the group; a host with no rule and no crawl delay runs the passes to an empty table where the code allocates no state.
- Cookie.ParseFields: libc's integer grammar is only modelled on fields already in strict form, which is all the parser gives it.
- Session.VerifyCookie: decryption and base64 failures are one error each; timing and the reason strings are not modelled.
- Session.IssueChallenge: random bytes are inputs, and a failing random source is not modelled.
- CvSlots.OneMinute: minutes are taken to fit the slot's 44 bits (2^44 minutes since 1970); a larger one would never match the slot.
- CvSlots.RateBound: bounds the count per window roll; a worker holding a stale minute can roll the window back, so no bound per true minute is claimed.
- Inflight.NeverAboveCap: assumes a positive cap, which the directive enforces (1 to 1024, src/captcha.c:2094-2109); `Inflight.ZeroCapBreaksTheWord` shows why.
- Generations: the publisher is a single process-wide watchdog tick; two concurrent publishers are not modelled.
- The automaton's compact copy into the state's pool is a plain copy and is not a separate step; entries with a NULL pattern do not occur in the model.
- Case folding is that of the C locale (A-Z only).
- The digit-run and device-token passes of the browser normaliser, IPv6 prefix masking, and the merging of rule lists between virtual hosts: short single-function code.
- Resealing a cookie with session flags, Set-Cookie handling, the bootstrap signature and its IP binding.
- SHA-256, HKDF, HMAC and AES-GCM themselves; memory pools, logging, metrics, HTML and JSON, directive parsing, file reloading, the provider's HTTP exchange.
