# ToolMesh: verified models

Dafny models of the parts of ToolMesh that carry state, arithmetic or parsing with guarantees that are not visible in one
function: the login throttle, the embedded authorization engine, the BIP-322 codecs and curve code, JSONPath selection and
redaction, the blob quota, the API key index, and four loop-heavy algorithms (edit distance, nesting of dotted keys, the
dotenv parser, the merge of redaction lists). `dafny verify dfyconfig.toml` checks everything.

Code that updates something in place is a class or a method with loops, proved against a function or relation; the laws are
lemmas about that function or relation. Map iteration is a nondeterministic choice. In the blob store and the key index
concurrency is a sequence of atomic sections, one per critical section of the source, with arbitrary sections of others in
between. A call of the login throttle is one step in the runs of `throttle_runs.dfy`; `throttle_overlaps.dfy` splits it into
its section in Redis and its section in the table, with any sections of other calls in between. Foreign calls that can fail
fail nondeterministically.

## What the files model

| files | part |
|---|---|
| `login_counters.dfy`, `login_throttle.dfy`, `throttle_runs.dfy`, `login_limits.dfy`, `throttle_overlaps.dfy` | the process-local counter table, the two Redis scripts and the throttle around them; whole runs; the limits over them; calls that overlap |
| `authz_ids.dfy`, `authz_model.dfy`, `authz_policy.dfy` | object names, the relation graph of `model.fga`, kits, parts, grants and denies |
| `sorted_strings.dfy`, `authz_key.dfy`, `authz_embedded.dfy`, `authz_safety.dfy` | the batch key, the engine (apply, check, batch) and what holds during and after a change |
| `bech32_checksum.dfy`, `bech32.dfy`, `convert_bits.dfy`, `address.dfy`, `bech32_standard.dfy` | bech32, bit regrouping with the 32-bit accumulator, addresses; the checksum against the field and the generator of BIP 173 |
| `modular.dfy`, `curve.dfy`, `curve_group.dfy` | arithmetic modulo a prime, the Jacobian formulas, the group and `twinMult` |
| `witness.dfy`, `der_signature.dfy` | CompactSize, witness stacks, strict DER |
| `json_path.dfy`, `json_path_syntax.dfy`, `json_path_texts.dfy`, `redact.dfy`, `json_heap.dfy`, `redact_in_place.dfy` | the two JSON walkers, the path dialect and the texts that denote its paths, redaction on values and in place |
| `nest_keys.dfy`, `nest_in_place.dfy` | nesting of dotted keys, on values and in place |
| `blob_store.dfy`, `api_keys.dfy` | quota accounting and the key index under interleaving |
| `dotenv.dfy`, `dotenv_forms.dfy`, `dotenv_exact.dfy` | the dotenv parser; what a file may look like and what it then says; that the parser reads exactly that |
| `edit_distance.dfy`, `text.dfy` | edit distance, string helpers of the Go standard library |

## Findings

The code is modelled as it is. Where a property its comments suggest does not hold on all inputs, the exact condition is
proved.

- Redis works in whole milliseconds, the local table in nanoseconds (internal/auth/loginthrottle.go:309, 329 and 529). After
  the first attempt the two cannot be told apart, then or later, if and only if window and clock reading are whole
  milliseconds (`FirstAttemptAgrees`); a refusal keeps them so if and only if it comes at a whole millisecond, whatever the
  window (`RefusalAgrees`, with the run in `RefusalShiftsTheEnd`: a refusal half a millisecond late, and a fallback 1000.2 ms
  after the start refuses what Redis would allow). In general the table holds a counter longer than Redis, by at most the two
  remainders together. In that moment an allowed attempt on the counter ends the agreement, and so does giving back one of
  several slots; nothing else does (`ChargeAgreesExactly`, `ReleaseAgreesExactly`). The table repeats Redis after every event
  of a run if and only if the run is free of these (`SimulationExactly`); then `Simulation` and `FallbackDecidesAlike` hold,
  with an error bound on expiry and retry time. For whole milliseconds the bound is zero and every run qualifies.
- A call has a section in Redis and one in the table (internal/auth/loginthrottle.go:220-223 and 266-273), and others may
  run in between. The sides agree on every counter that no call is on its way with, as long as calls that share a counter
  reach the table in the order in which they reached Redis and none is cut short: no section, reading the clock later, drops
  a counter as over that a call on its way still counts on (`OverlapsAgree`; the run `CutShort` keeps the order and fails,
  `OrderAloneIsNotEnough`). Within one window of a counter, two calls in
  the wrong order leave the sides agreeing if and only if both release, both are refused, both charge a counter that exists,
  or one charges and one gives back one of several slots; or the ends of a counter opened anew coincide within the drift
  (`SwapExactly`). `LateRefusalExactly`, `LateChargeExactly` and `LateReleaseExactly` say the same of one late section after
  any others. The table counts less than Redis if and only if a release took with it the charge of an attempt that overtook
  it (`CountsLessExactly`): after the run `LateRelease` a fallback allows what Redis refuses (`LateReleaseLetsThrough`). In
  the other direction, after `LateRefusal` it refuses what Redis allows (`LateRefusalLocksOut`).
- A tuple the engine will not delete is left behind by `apply` as inert (internal/authz/embedded.go:776-808). If it is not
  inert, removing it together with a deny can allow a request that neither the old nor the new rules allow. A grant may stay
  behind in every change if and only if it is not effective or does not name a subject and an object
  (`LeftBehindExactly`, with the change in `LeavingAllows`); with inert leftovers every intermediate state is safe
  (`OrderSafety`, `ApplyIsSafe`).
- The kits are exchanged only after the last step of `apply` (internal/authz/embedded.go:640-667), under denies that are
  already being removed. A request is safe throughout every change to given new kits if and only if the new kits keep it
  within the limit of contextual tuples, and what a part it holds covered is still covered by a part or a whole kit that it
  holds (`KitChangeExactly`, with the two policies in `DenyRemovedEarly`).
- A blob committed under an identifier that is already taken loses the bytes of the blob it replaces
  (internal/blob/store.go:177-182): the usage stays exact if and only if the identifier is new or that of an empty blob
  (`CommitExactly`). Identifiers are 128 random bits (internal/blob/store.go:151 and 330), so this takes a collision.
- The result of nesting dotted keys depends on the iteration order of the map (internal/backend/restadapter.go:1191-1197)
  exactly when two dotted keys that could both nest lead through one another, like `a.b` and `a.b.c`
  (`OrderMattersExactly`). Nothing is lost under any order.
- A request with a key that the index holds by the time it returns gets "nothing found" if and only if, after its lookup had
  missed, another request with the same key bound the last unseen entry before it asked whether any are left
  (internal/auth/apikeys.go:251-258; `Verify`, with the schedule in `OvertakenByItself`). A scan of a list with a
  matching entry says "nothing found" if and only if the first one was bound to another key meanwhile and the address is still free
  (internal/auth/apikeys.go:295-297, 320-334; `Scan`); entries after it are not compared, although one may match
  (`TakenByAnother`). The latter needs two keys that one hash matches.
- The Kelvin sign lower-cases to `k` and is its own upper case (internal/bip322/bech32.go:72-75), so it is accepted in an
  upper-case address in place of `K` (`KelvinParses`). Exactly the addresses with a `k` have such a form (`KelvinExactly`);
  `FormsExactly` lists all texts that are read as a given address.

## Model

| member | source | states |
|---|---|---|
| LoginCounters.LocalCounters.Acquire | internal/auth/loginthrottle.go:468-478 | a refused attempt changes no live counter and names the first exhausted one with its remaining time; an allowed one charges all its counters after room was made |
| LoginCounters.LocalCounters.MakeRoom | internal/auth/loginthrottle.go:580-626 | whatever the iteration order: only removals, until the needed entries fit; no kept live counter goes, an exhausted one only when nothing else is left |
| LoginCounters.LocalCounters.Charge | internal/auth/loginthrottle.go:491-512 | missing counters are counted, room is made for them without touching the attempt's own, then each is charged once |
| LoginCounters.LocalCounters.Exhaust | internal/auth/loginthrottle.go:517-531 | a counter Redis reports as exhausted is marked so locally unless local charges know better |
| LoginCounters.LocalCounters.Release | internal/auth/loginthrottle.go:537-560 | the table after the slot was handed back, counter by counter |
| LoginThrottle.AcquireScript | internal/auth/loginthrottle.go:169-192 | the script, command by command in milliseconds, refuses without a charge at the first full counter, or increments all and sets missing expiries |
| LoginThrottle.ReleaseScript | internal/auth/loginthrottle.go:197-212 | the script deletes or decrements each key as its mode says |
| LoginThrottle.Throttle.Acquire | internal/auth/loginthrottle.go:217-239 | an attempt is decided by Redis and mirrored with the milliseconds it replied, or by the local table when that holds charges Redis never saw or Redis fails; the table keeps its bound |
| LoginThrottle.CountersForExactly | internal/auth/loginthrottle.go:277-295 | without a window nothing is counted; with one exactly the limits that are set are, for the pair, the account and the address, the narrowest first |
| LoginThrottle.Throttle.Mirror | internal/auth/loginthrottle.go:338-344 | the section in the table that follows a reply: all counters charged, or the one Redis named marked for the milliseconds it replied |
| LoginThrottle.Throttle.Release | internal/auth/loginthrottle.go:261-274 | the slot goes back to the table and, when it was reserved there, to Redis; the table keeps its bound |
| ThrottleRuns.Simulation | internal/auth/loginthrottle.go:338-344 | after every run in which Redis answers, nothing is evicted and no event charges, or takes one of several slots from, a counter that only the table still holds: the same live counters and counts on both sides, nothing unshared, expiries apart by at most the dropped remainders; an exact copy, without a condition on the events, when these are zero |
| ThrottleRuns.SimulationExactly | internal/auth/loginthrottle.go:338-344 | over a whole run the sides agree after every event if and only if every event meets that condition |
| ThrottleRuns.FallbackDecidesAlike | internal/auth/loginthrottle.go:217-239 | the first attempt that falls back is refused whenever Redis would refuse it; with settled counters verdict and blocking counter are those of Redis, and the retry times differ by no more than Redis rounds off and the expiries are apart |
| ThrottleRuns.FirstAttemptAgrees | internal/auth/loginthrottle.go:306-332 | after the first attempt both sides hold the same counters at every later moment if and only if window and clock reading are whole milliseconds |
| ThrottleRuns.RefusalAgrees | internal/auth/loginthrottle.go:517-531 | after a refusal from an exact copy they do so if and only if it came at a whole millisecond |
| ThrottleRuns.RefusalShiftsTheEnd | internal/auth/loginthrottle.go:517-531 | a run with a whole-millisecond window after which a fallback refuses what Redis would allow |
| ThrottleRuns.ChargeAgreesExactly | internal/auth/loginthrottle.go:338-344 | an allowed attempt keeps the agreement if and only if no counter of it is held by the table alone |
| ThrottleRuns.ReleaseAgreesExactly | internal/auth/loginthrottle.go:261-274 | a success or a cancellation keeps the agreement if and only if each of its counters is deleted, held by both sides or neither, or down to its last slot |
| ThrottleRuns.TableStaysBounded | internal/auth/loginthrottle.go:491-531 | over every run, with Redis answering or not at every call: at most maxEntries entries, each with its scope's limit and a positive count |
| ThrottleRuns.CountsStayBounded | internal/auth/loginthrottle.go:491-512 | over every run with local counters only, also no count above its limit and no expiry beyond one window |
| ThrottleRuns.AllOrNothing | internal/auth/loginthrottle.go:464-478 | a local attempt is allowed exactly when no live counter of it is full; it then charges each once, otherwise no live counter changes |
| ThrottleRuns.LockoutsGoLast | internal/auth/loginthrottle.go:572-626 | whoever decides the attempt, a live exhausted counter disappears only when every counter left is exhausted or one the attempt was just written to |
| ThrottleRuns.AtMostTheLimit | internal/auth/loginthrottle.go:62-72 | within one window, without a success or an eviction, a counter admits at most its limit, over every run |
| LoginLimits.LimitsHold | internal/auth/loginthrottle.go:62-76 | with local counters, within one window and without a release or an eviction, at most the configured number of attempts is allowed on an account from whatever addresses, from an address on whatever accounts, and on an account from an address |
| LoginLimits.VerdictExactly | internal/auth/loginthrottle.go:217-239 | the next attempt is refused if and only if a limit that is set was reached by those allowed so far, and in the name of the narrowest such limit |
| ThrottleOverlaps.OverlapsAgree | internal/auth/loginthrottle.go:217-274 | over every run of overlapping calls in which those that share a counter reach the table in the order of their scripts, and nothing they count on is evicted or dropped as over: a counter without a call on its way is the same on both sides, and all are when nothing is on its way |
| ThrottleOverlaps.OrderAloneIsNotEnough | internal/auth/loginthrottle.go:451-461 | a run in that order, on whole milliseconds and without an eviction, in which a later reading drops the counter of a call on its way and the sides end with different counts |
| ThrottleOverlaps.AttemptIsTwoMoves | internal/auth/loginthrottle.go:217-227 | an attempt that Redis decides is its two sections in a row |
| ThrottleOverlaps.ReleaseIsTwoMoves | internal/auth/loginthrottle.go:261-274 | so is a release |
| ThrottleOverlaps.LateRefusalExactly | internal/auth/loginthrottle.go:517-531 | whatever happened since the script, a refusal that is marked now leaves the sides agreeing if and only if Redis still holds the counter at its limit with that end |
| ThrottleOverlaps.LateChargeExactly | internal/auth/loginthrottle.go:491-512 | a charge that is mirrored now does if and only if Redis holds one more than the table did, with the end of the table's entry |
| ThrottleOverlaps.LateReleaseExactly | internal/auth/loginthrottle.go:537-560 | a release that reaches the table now does if and only if Redis holds one less than the table did, or no such counter where the table drops it |
| ThrottleOverlaps.SwapExactly | internal/auth/loginthrottle.go:217-274 | for two calls of any kind on one counter, the second of which overtakes the first: which pairs leave the sides agreeing |
| ThrottleOverlaps.CountsLessExactly | internal/auth/loginthrottle.go:217-274 | and which leave the table with less than Redis |
| ThrottleOverlaps.OverlapDiffers | internal/auth/loginthrottle.go:217-227 | a refusal that is mirrored after another attempt's success locks a counter that Redis does not have |
| ThrottleOverlaps.LateReleaseLetsThrough | internal/auth/loginthrottle.go:261-274 | a run after which a fallback allows what Redis refuses |
| ThrottleOverlaps.LateRefusalLocksOut | internal/auth/loginthrottle.go:217-227 | a run after which a fallback refuses what Redis allows |
| AuthzIds.Escape | internal/authz/authz.go:96-111 | the loop builds the escaped name |
| AuthzIds.EscapeInjective | internal/authz/authz.go:92-111 | two names never share an escaped form |
| AuthzIds.EscapePlain | internal/authz/authz.go:92-111 | the escaped form holds none of the characters with a meaning in tuples |
| AuthzIds.KeptExactly | internal/authz/authz.go:92-111 | a name is its own escaped form if and only if it holds no percent sign, colon, hash, star, space or control character |
| AuthzIds.BackendAccessInjective | internal/authz/kits.go:205-211 | the identifier of a backend and an access class determines both |
| AuthzModel.GraphMeaning | internal/authz/model.fga:30-75 | the graph lets a user execute a tool exactly when some rule or part tuple joins a subject of the caller to an object of the tool and no blocked tuple does |
| AuthzPolicy.ScopeExactly | internal/authz/kits.go:156-189 | for every text: it is refused if and only if it has no backend, no access after a colon or a second colon; otherwise it covers exactly the backends and access classes its two parts name, a star naming all |
| AuthzPolicy.ScopeForms | internal/authz/kits.go:148-175 | every documented form, with space anywhere around its parts, covers what the documentation says: everything, one backend, one class, or one pair |
| AuthzPolicy.CoversExactly | internal/authz/kits.go:247-260 | a kit covers the tools it names and what its scopes say as texts |
| AuthzPolicy.PartCoversExactly | internal/authz/kits.go:109-126 | a part covers what its entries say as texts, as far as the kit lists them |
| AuthzPolicy.HeldPartsExactly | internal/authz/embedded.go:446-522 | a part a caller holds counts with the one kit of its name, if there still is one |
| AuthzPolicy.CoversIsTheGraph | internal/authz/kits.go:250-260 | the static test agrees with the tuples: a kit covers a tool if and only if one of its objects is among the tool's |
| AuthzPolicy.PartCoversIsTheGraph | internal/authz/kits.go:109-146 | the same for a part and its objects |
| AuthzPolicy.PartNeverWidens | internal/authz/kits.go:74-92 | whatever the kit becomes later, a part made of it covers no more than the kit covered |
| AuthzPolicy.GrantRulesMeaning | internal/authz/grants.go:252-312 | the tuples of a grant join a request exactly when the grant names its subject and its target |
| AuthzPolicy.KitRulesMeaning | internal/authz/kits.go:277-292 | the tuples of a kit join a request exactly when the caller holds the kit and it covers the tool |
| AuthzPolicy.GraphPermits | internal/authz/embedded.go:446-522 | on the stored rules of a policy the graph decides as the configuration reads |
| AuthzKey.BuildKey | internal/authz/embedded.go:754-774 | the loops build the framed key |
| AuthzKey.KeyIsExact | internal/authz/embedded.go:754-774 | two requests share a key if and only if they agree in user, company, plan, backend, access class and kit parts, in whether they name a tool, and in the sets of their roles and kits |
| AuthzEmbedded.Embedded.constructor | internal/authz/embedded.go:253-312 | after bootstrap toolGrants covers the stored tools |
| AuthzEmbedded.Embedded.Apply | internal/authz/embedded.go:584-667 | every intermediate state, whatever fails where, is one of an ordered change; toolGrants covers every stored tool at every step; success leaves the desired set plus leftovers |
| AuthzEmbedded.Embedded.WriteTuples | internal/authz/embedded.go:680-697 | chunk by chunk, all or a prefix of the tuples are stored, and no state in between leaves that range |
| AuthzEmbedded.Embedded.DeleteTuples | internal/authz/embedded.go:776-808 | a chunk goes at once or one by one; what stays is named as left behind |
| AuthzEmbedded.Embedded.Check | internal/authz/embedded.go:450-522 | the answer is that of the graph on the stored and contextual tuples; an error decides nothing |
| AuthzEmbedded.Embedded.CheckBatch | internal/authz/embedded.go:721-752 | every answer is what Check answers for that request, errors read as false |
| AuthzEmbedded.SharedVerdict | internal/authz/embedded.go:147-151 | equivalent requests get one verdict for tools that no stored rule and no kit in effect names |
| AuthzSafety.AllowedMeaning | internal/authz/embedded.go:446-522 | a check allows exactly when a stored rule or a held part grants and no stored rule denies |
| AuthzSafety.OrderSafety | internal/authz/embedded.go:574-667 | with inert leftovers, every ordered state of a change from rules allows no more than the old rules or no more than the new ones |
| AuthzSafety.ApplyIsSafe | internal/authz/embedded.go:584-667 | the same for every state in the history of an apply, whatever failed; every such state again holds no effective tuple that is not a rule |
| AuthzSafety.LeftBehindExactly | internal/authz/embedded.go:776-808 | a grant may be left behind in every state of every change if and only if it is not effective or does not have the form of a subject on an object |
| AuthzSafety.LeavingAllows | internal/authz/embedded.go:776-808 | otherwise: the stored rules, the empty policy and the request that is allowed in between and neither before nor after |
| AuthzSafety.KitChangeExactly | internal/authz/embedded.go:640-667 | for valid kits and rules that are effective: checks with the old kits stay safe throughout every change to the new kits if and only if the request still fits and what its parts covered is covered by a part or a whole kit of the new ones |
| AuthzSafety.DenyRemovedEarly | internal/authz/embedded.go:640-667 | otherwise: an old and a new policy with these kits, and the request that only the state before the exchange allows |
| AuthzSafety.AppliedPolicyDecides | internal/authz/embedded.go:584-667 | after a successful apply every request is decided as the policy says |
| Bech32Checksum.Polymod | internal/bip322/bech32.go:38-51 | the loop folds the checksum steps |
| Bech32Checksum.StepInjective | internal/bip322/bech32.go:38-51 | a checksum step loses nothing of the register |
| Bech32Checksum.StepSeparates | internal/bip322/bech32.go:38-51 | nor of the value |
| Bech32Checksum.StepOffset | internal/bip322/bech32.go:38-51 | a step is linear in a low offset |
| Bech32Checksum.OneChangeChangesPolymod | internal/bip322/bech32.go:38-51 | one changed value changes the checksum, whatever surrounds it |
| Bech32Checksum.ChecksumIsUnique | internal/bip322/bech32.go:100-116 | exactly one checksum of six values makes the polymod the constant |
| Bech32Standard.PolymodExactly | internal/bip322/bech32.go:38-51 | the polymod is the one remainder of the values, as a polynomial over GF(32), modulo the generator polynomial of BIP 173 |
| Bech32Standard.CharsetExactly | internal/bip322/bech32.go:24 | every value has the character of the table in BIP 173 |
| Bech32Standard.ExpandedExactly | internal/bip322/bech32.go:53-63 | the expansion of an n-character prefix has 2n + 1 values: the high bits, a zero, the low bits; the two halves of a character give it back |
| Bech32Standard.PublishedAddress | internal/bip322/bip322.go:71-116 | the P2WPKH address published in BIP 173 parses to the published program, which is written as that address |
| Bech32.Bech32Decode | internal/bip322/bech32.go:65-98 | the method with its checks and loops computes the decoder |
| Bech32.Bech32Encode | internal/bip322/bech32.go:100-116 | the method with its loops computes the encoder |
| Bech32.DecodeInvertsEncode | internal/bip322/bech32.go:65-116 | decoding inverts encoding if and only if the prefix is printable without capitals, not empty, and the string has at most 90 bytes |
| Bech32.EncodeInvertsDecode | internal/bip322/bech32.go:65-116 | what decodes with the bech32 constant is, lower-cased, the encoding of its parts |
| Bech32.OneCharacterOff | internal/bip322/bech32.go:93-97 | another data character changes the constant |
| ConvertBits.Regroup | internal/bip322/bech32.go:118-141 | the loop with its wrapping 32-bit accumulator regroups the bit string exactly, for every length |
| ConvertBits.BytesRoundTrip | internal/bip322/bech32.go:118-141 | 8 to 5 to 8 bits is the identity on every byte string |
| ConvertBits.FivesRoundTrip | internal/bip322/bech32.go:118-141 | 5 to 8 to 5 bits is the identity on what is accepted |
| Address.FromDecodedExactly | internal/bip322/bip322.go:78-110 | what the decoder must deliver for an address, and nothing else |
| Address.ParsesExactly | internal/bip322/bip322.go:71-110 | a string parses as an address if and only if, trimmed, it is a form of it in one case within 90 bytes |
| Address.NetworksExactly | internal/bip322/bip322.go:78-110 | the addresses that some text is parsed as are exactly those of the three networks with 20 bytes |
| Address.FormsExactly | internal/bip322/bech32.go:65-98 | the forms of an address are its canonical form and the upper case of it with any k's as Kelvin signs, within 90 bytes |
| Address.KelvinParses | internal/bip322/bech32.go:72-75 | an upper-case address with a Kelvin sign for a k is accepted as that address |
| Address.KelvinExactly | internal/bip322/bech32.go:72-75 | an address is read from a text that is not ASCII if and only if it has a k |
| Address.ParseOfToString | internal/bip322/bip322.go:71-116 | parsing the canonical form gives the address |
| Address.ToStringOfParse | internal/bip322/bip322.go:71-116 | whatever parses is the canonical form up to case and surrounding space |
| Address.OneWrongCharacter | internal/bip322/bip322.go:92-110 | no accepted address survives another charset character in any one place after the separator |
| Modular.NoZeroDivisors | internal/bip322/secp256k1.go:61-71 | modulo a prime a product vanishes only with a factor |
| Modular.Inverse | internal/bip322/secp256k1.go:124-128 | every number that does not vanish has an inverse |
| Curve.DoubleIsSum | internal/bip322/secp256k1.go:73-89 | double returns a Jacobian form of the tangent point, or infinity |
| Curve.AddIsSum | internal/bip322/secp256k1.go:91-122 | add returns a form of the chord point, the tangent point for equal points, infinity for opposite ones, the other point for infinity |
| CurveGroup.SumExists | internal/bip322/secp256k1.go:91-122 | the chord and tangent rule always gives a point |
| CurveGroup.SumUnique | internal/bip322/secp256k1.go:91-122 | and only one |
| CurveGroup.SumOnCurve | internal/bip322/secp256k1.go:23-31 | the sum of two points of y² = x³ + 7 lies on it |
| CurveGroup.Commutative | internal/bip322/secp256k1.go:91-122 | the sum does not depend on the order |
| CurveGroup.AffinePointRepresents | internal/bip322/secp256k1.go:55-57 | an affine point is a Jacobian form of itself |
| CurveGroup.AffineXIs | internal/bip322/secp256k1.go:124-128 | the affine x is recovered from any Jacobian form |
| CurveGroup.TwinMult | internal/bip322/secp256k1.go:130-146 | one pass over the bits of both factors computes a·P + b·Q for all non-negative a and b |
| Witness.ReadsExactly | internal/bip322/bip322.go:234-264 | exactly the minimal encodings are read, whatever follows, and inverted |
| Witness.ParseWitness | internal/bip322/bip322.go:203-232 | the result is a stack if and only if the bytes are its canonical serialisation |
| Witness.SerializeInjective | internal/bip322/bip322.go:203-232 | no two stacks have the same serialisation |
| DerSignature.DerIntegerExactly | internal/bip322/secp256k1.go:221-233 | exactly the shortest non-negative forms are integers |
| DerSignature.MinimalIsShortest | internal/bip322/secp256k1.go:221-233 | these forms are the number in two's complement, and no form of it has fewer bytes |
| DerSignature.ParsesExactly | internal/bip322/secp256k1.go:197-219 | a signature parses as (r, s, sighash) if and only if it is their strict DER form of at most 73 bytes |
| DerSignature.ParseInjective | internal/bip322/secp256k1.go:197-219 | no signature can be encoded in two ways |
| JsonPath.Extract | internal/dadl/jsonpath.go:114-154 | without a wildcard the one node collectNodes finds, an error exactly when there is none; with one the whole list |
| JsonPath.CollectsExactly | internal/dadl/jsonpath.go:156-207 | exactly the values at the selected positions are collected |
| JsonPathSyntax.NewJSONPath | internal/dadl/jsonpath.go:40-69 | the loop parses the expression |
| JsonPathSyntax.PathTextParses | internal/dadl/jsonpath.go:71-102 | every path of the dialect has an expression that parses to it |
| JsonPathSyntax.AcceptedInDialect | internal/dadl/jsonpath.go:71-102 | nothing outside the dialect is accepted |
| JsonPathSyntax.DescendantRejected | internal/dadl/jsonpath.go:72-76 | an expression with two dots in a row is rejected, wherever they stand and whatever it starts with |
| JsonPathTexts.SegmentExactly | internal/dadl/jsonpath.go:71-102 | for every part between dots and every segment: it is parsed as the segment if and only if it is written as one, a star, a name, or a name or nothing before a star or a number in brackets |
| JsonPathTexts.PathExactly | internal/dadl/jsonpath.go:40-102 | for every text and every path: the text is parsed as the path if and only if it stands for it |
| JsonPathTexts.RootIsOptional | internal/dadl/jsonpath.go:47-53 | a leading $. or $ changes nothing |
| JsonPathTexts.ChildrenAreRedacted | internal/dadl/redact.go:59-123 | $.f.* and $.f[*] both replace every child of member f, whatever f is, and nothing else |
| Redact.RedactIsMasked | internal/dadl/redact.go:59-123 | the replacing walker puts the placeholder at exactly the positions the collecting walker selects |
| Redact.MaskingCommutes | internal/dadl/redact.go:48-50 | two paths give the same in either order |
| Redact.MaskingIdempotent | internal/dadl/redact.go:48-50 | a path applied twice changes nothing more |
| Redact.FixedExactly | internal/dadl/redact.go:59-123 | a document is unchanged by a path if and only if the placeholder is all the path selects |
| Redact.OrderIsFree | internal/backend/restadapter.go:1504-1525 | order and repetitions in a list of paths do not matter |
| Redact.NeverTakenBack | internal/backend/restadapter.go:1504-1525 | a longer list redacts everything a shorter one does |
| Redact.RedactionComplete | internal/dadl/redact.go:23-57 | after redaction the placeholder is all that collectNodes finds for any path of the list |
| Redact.RedactionHides | internal/dadl/redact.go:23-57 | the value at a selected position has no influence on the result |
| Redact.RedactionKeeps | internal/dadl/redact.go:59-63 | what no path selects, nor anything above it, keeps its shape and scalar values |
| RedactInPlace.RedactValue | internal/dadl/redact.go:59-88 | the walk that overwrites maps and slices leaves a tree without sharing that is the redacted document |
| RedactInPlace.RedactSelected | internal/dadl/redact.go:90-123 | the same for a bracket selector |
| RedactInPlace.RedactMembers | internal/dadl/redact.go:101-104 | every member is overwritten once, in any order |
| RedactInPlace.RedactResult | internal/dadl/redact.go:23-57 | a result exactly when every path parses and the body decodes, and then all paths were applied; no paths, no change |
| RedactInPlace.EffectiveRedactPaths | internal/backend/restadapter.go:1508-1525 | the merged list holds the paths of both lists, each once |
| RedactInPlace.MergedRedactsBoth | internal/backend/restadapter.go:1504-1525 | it fails when one of the two does and redacts what both do: a tool can add, never remove |
| EditDistance.EditDistance | internal/dadl/paramcheck.go:277-308 | the two swapped rows compute the recursive distance |
| EditDistance.NoShorterScript | internal/dadl/paramcheck.go:277-308 | no edit script is shorter than the distance |
| EditDistance.ShortestScript | internal/dadl/paramcheck.go:277-308 | some edit script has exactly that length |
| EditDistance.Symmetric | internal/dadl/paramcheck.go:277-308 | symmetry |
| EditDistance.ZeroIffEqual | internal/dadl/paramcheck.go:281-283 | zero exactly for equal strings, which justifies the shortcut |
| EditDistance.Triangle | internal/dadl/paramcheck.go:277-308 | the triangle inequality |
| NestKeys.NothingLost | internal/backend/restadapter.go:1173-1199 | under every order plain keys keep their values but for gained members, and every dotted value is at its path or untouched at its literal key |
| NestKeys.StepKeeps | internal/backend/restadapter.go:1191-1197 | a round takes nothing away and the literal fallback overwrites nothing |
| NestKeys.RoundExactly | internal/backend/restadapter.go:1191-1229 | a value goes to its path if nothing stands there and only objects stand on the way, and otherwise to its literal key with nothing else touched |
| NestKeys.OrderMattersExactly | internal/backend/restadapter.go:1191-1197 | the result is the same for all orders if and only if no two keys that could nest lead through one another |
| NestInPlace.InsertNested | internal/backend/restadapter.go:1201-1229 | the value is in the tree at its path, or there was a collision and no map has changed at all |
| NestInPlace.NestDottedKeys | internal/backend/restadapter.go:1183-1199 | the loops over the map, in any order, compute the nesting for that order and change no map that is not part of the result |
| BlobStore.Store.Reserve | internal/blob/quota.go:92-106 | bytes are reserved if and only if blobs and writes in flight leave room for them under every limit that is set, in total and for an owner that is named; usage stays exact and within the limits |
| BlobStore.Store.AddLocked | internal/blob/quota.go:115-127 | the clamp loses no byte and owners without bytes have no entry |
| BlobStore.Store.Commit | internal/blob/store.go:173-182 | the blob takes over what the write holds; the usage stays exact if and only if the identifier is new or that of an empty blob |
| BlobStore.CommitExactly | internal/blob/store.go:173-182 | the same for the accounts alone |
| BlobStore.Store.Delete | internal/blob/store.go:235-253 | an existing blob goes and its bytes with it |
| BlobStore.Store.RemoveExpired | internal/blob/store.go:313-328 | exactly the expired blobs go, in any order, and their bytes with them |
| BlobStore.Store.Interleave | internal/blob/store.go:44-51 | any steps of other goroutines keep usage equal to blobs plus reservations, in total and per owner, and within a fixed quota |
| BlobStore.QuotaWriter.Write | internal/blob/quota.go:129-148 | what was written is what stays reserved, also after a short write |
| BlobStore.Store.PutOwned | internal/blob/store.go:147-201 | with others in between: in the end the write holds nothing, and a stored blob has the size of everything written |
| ApiKeys.NewAPIKeyStore | internal/auth/apikeys.go:161-216 | loading fails exactly for an unreadable digest or two entries at one address; otherwise index and unseen hold exactly the entries of their kind |
| ApiKeys.APIKeyStore.Remember | internal/auth/apikeys.go:317-334 | an entry moves from unseen to the index once; bindings are forever; positions stay disjoint and together constant |
| ApiKeys.APIKeyStore.Scan | internal/auth/apikeys.go:270-299 | with others in between: the answer is what stands at the address in the end; nothing, although an entry matches, exactly when the first match was bound to another key |
| ApiKeys.APIKeyStore.Verify | internal/auth/apikeys.go:231-268 | undisturbed, the index hit or else the first unseen entry in file order that matches; in company what stands at the address in the end, except exactly when the key was bound between the lookup and the look at what is left, and nothing was left |
| ApiKeys.OvertakenByItself | internal/auth/apikeys.go:251-258 | the schedule of two requests with one key in which the first finds nothing |
| ApiKeys.TakenByAnother | internal/auth/apikeys.go:320-334 | the schedule of two keys in which a second entry that matches is not compared |
| ApiKeys.APIKeyStore.FoundMatches | internal/auth/apikeys.go:223-229 | what is found for a key matches it, as long as digests do not collide |
| ApiKeys.DigestFinds | internal/auth/apikeys.go:223-240 | in the index that loading fills, a key is found at an entry with a digest if and only if the digest is its SHA-256 |
| ApiKeys.FirstInFile | internal/auth/apikeys.go:270-299 | the scan order is the order of the file |
| Dotenv.ParseDotenv | internal/credentials/dotenv.go:24-97 | the loops terminate within the lines on every input and compute the variables, or the line that is wrong and why |
| Dotenv.ClosingQuote | internal/credentials/dotenv.go:111-125 | the first quote that no odd number of backslashes precedes, or -1 |
| Dotenv.UnescapeDoubleQuoted | internal/credentials/dotenv.go:127-155 | the loop resolves the escapes |
| Dotenv.UnquotedValue | internal/credentials/dotenv.go:99-109 | the value up to the first comment |
| Dotenv.ValidEnvName | internal/credentials/dotenv.go:157-172 | exactly the portable names |
| DotenvForms.FormsAreRead | internal/credentials/dotenv.go:24-97 | a file of blank lines, comments and entries parses to what they say: export with any blanks, blanks around key and value, comments after a value, every mixture of escapes, carriage returns before line breaks, a byte order mark |
| DotenvForms.FaultIsReported | internal/credentials/dotenv.go:24-97 | a line without equals sign, a key that is no name, a quote that nothing closes and a text after the closing quote are reported with the line in which the entry begins and their kind |
| DotenvExact.ParsesExactly | internal/credentials/dotenv.go:24-97 | for every file and all variables: they are the result if and only if the file holds forms, and nothing else, that say them |
| DotenvExact.FailsExactly | internal/credentials/dotenv.go:24-97 | for every file, line and kind: this error is reported if and only if forms stand before a fault of this kind, which begins in this line |
| DotenvExact.RoundTrip | internal/credentials/dotenv.go:24-97 | a file of entries parses to its variables: any value escaped between double quotes, literal ones between single quotes over several lines, plain ones as sops writes them; a later entry wins |
| Dotenv.LineBreaksExactly | internal/credentials/dotenv.go:30-34 | an unquoted value gets its line breaks back if and only if nothing else in it looks like one |

## Left out

- The throttle: Redis' own clock and the instant at which a counter expires (one clock, half-open windows), IP
  normalisation and key hashing (distinct keys are distinct), the rate limit of the eviction warning, failures of Redis during
  a release, several replicas.
- Strings: case mapping of code points other than ASCII, the Kelvin sign, the long s and the dotted and dotless i; invalid
  UTF-8. Error texts.
- Authorization: parsing of grant and policy files, presets, approvers, the check cache, the order in which writes, deletes
  and kits are sorted, OpenFGA and SQLite. Effective stored tuples are rules of configuration. Two failed applies in a row.
  Kit descriptions and lifetimes.
- AuthzSafety.LeftBehindExactly: one leftover at a time and the same kits before and after; several inert ones are the case
  of OrderSafety.
- ThrottleRuns.Simulation: calls one at a time (OverlapsAgree is for the others), and windows of a millisecond or more,
  because Redis keeps nothing for a shorter one.
- ThrottleOverlaps.OverlapsAgree: the script runs at the clock reading of its call; calls that Redis does not answer do not
  overlap with others.
- ThrottleOverlaps.SwapExactly: both calls fall into one window of the counter; LateRefusalExactly, LateChargeExactly and
  LateReleaseExactly have no such bound.
- The curve: that the modulus of secp256k1 is prime and that addition on the curve is associative are hypotheses. Public key
  parsing, signature verification, hashes and base64 are not part of this model.
- CurveGroup.TwinMult: takes the points it is given to lie on the curve, as the public key parser checks.
- JSON decoding and encoding: a decoded document is a tree in which no map or slice stands twice.
- RedactInPlace.EffectiveRedactPaths: the order of the merged list, on which no result depends.
- Nesting: that the maps a body shares with its caller gain members there too.
- The blob store: files, the 64-bit range of byte counts, the warning for a refusal, serving blobs.
- API keys: admission of comparisons and their waiting times; a comparison may be refused at any point.
- Components with easy or no whole-run guarantees: config loading, audit stores, the TypeScript generator, the credential
  registry, health checks, the file broker's HTTP side, retry backoff, version ranges.
