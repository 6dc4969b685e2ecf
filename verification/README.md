# Propylea: a verified model of its quarantine, parsers and encoders

Propylea is a TLS reverse proxy that bans hostile networks. This project models the parts of it
that hold state or transform data, and proves what they do for every input and every run.

| file | what it models |
|---|---|
| `Wrappers.dfy`, `Text.dfy` | `Option`, `Result`, bytes; the part of Rust's `str` that the code calls (trim, split, parse and print `u64`) |
| `Networks.dfy` | addresses, CIDR containment, and the text codecs as a record of functions with stated laws |
| `QuarantineStore.dfy` | the SQLite table and audit log: what each committed call does, and the class that does it |
| `StoreHistory.dfy` | what table and log mean over every history of calls |
| `Enforcement.dfy` | memory and store together: atomic commands, restarts, offline commands |
| `Interleaving.dfy` | the same commands split into their memory and store halves, with the trap queue and its worker |
| `LostBans.dfy` | which bans and unbans survive the interleavings and crashes, with exact conditions |
| `BanEffects.dfy` | what a ban command does to each network, said without its steps |
| `QuarantineDaemon.dfy` | the control-socket handlers, boot, worker and offline command line as methods |
| `DaemonRun.dfy` | boot and any list of operator commands, chained from those methods |
| `ClientHello.dfy`, `HelloEncoding.dfy` | the ClientHello fingerprint parser, the User-Agent check, an encoder |
| `Sanitize.dfy` | the terminal-escape scrubber and its reference automaton |
| `Export.dfy` | CSV export with a reader, HTML escaping with a decoder |
| `FramingGuard.dfy` | the Content-Length and Transfer-Encoding decision |
| `Telemetry.dfy` | query redaction and the telemetry ring |
| `Ingest.dfy` | duration text, log ingestion, exclusion, batches |
| `Router.dfy` | upstream pools, configuration check and Host routing |

## Assumptions

- **Text codecs.** Parsing and printing of addresses and networks, and the rule that widens an address to
  its quarantine network, are four functions in a `Codec`. The theorems hold for every codec with the laws
  of `Networks.Lawful`; `Networks.LawfulCodecExists` shows that some codec meets them, reads and widens
  every address, and reads every network in two spellings.
- **The in-memory ban table** belongs to `phylax`, which is not part of this model. Its contract is written
  out at the top of `Enforcement.dfy` and as the class `AutonomousQuarantine`: a ban inserts or overwrites,
  an unban removes the parsed network or every network around a bare address, a clear empties. The handle
  cloned at `src/proxy/mod.rs:150` is taken to share one table with the pipeline. All of this contract is
  assumed.
- **Clocks** are parameters. Commands are assumed to run before 2^63 milliseconds.
- **Arithmetic** on `u64` wraps, as release builds do; debug builds stop instead.

## Where the code does not do what one would expect

For each of these the exact condition is proved, in both directions.

- A live ban whose expiry reaches 2^63 is enforced in memory and never stored; memory and store agree
  after a ban exactly when the expiry fits or has passed (`BanKeepsAgreementExactlyWhenItFits`). A duration
  of 10^16 seconds does it. From 2^64 on the expiry wraps and comes too early; 18446744073709552 seconds
  last 384 milliseconds (`ExpiryIsExact`, `LongBans`).
- The store unbans by key text, memory by parsed network. An unban that misspells the network of an
  unexpired row clears memory only, and the ban returns at the next restart
  (`UnbanKeepsSyncExactlyWhenSpeltRight`, `MisspeltUnbanLeavesRow`); until then the answers differ unless
  other networks in memory cover the range (`UnbanKeepsAgreementExactlyWhenSpeltRightOrCovered`).
- A row whose infraction count has outgrown a `u32` is skipped at boot
  (`RestartRestoresSyncExactlyWhenReadable`, `RestartRestoresAgreementExactlyWhenCovered`).
- A ban can be lost in two ways: its record does not fit the store (`UnstorableBanIsLost`), or it lands
  between the halves of an unban, which are not ordered against other commands
  (`RebanDuringUnbanIsLost`). Every enforced network has an active row or a storable record in flight at
  all times exactly when no ban or trap enforces a network with an unstorable record and nothing else to
  back it, and no store half deactivates an enforced row without a storable record in flight
  (`NoEnforcedBanIsLostExactlyWhenClean`). In schedules that keep the two halves of unbans and clears
  together only unstorable records can lose a ban (`SerialUnbansLoseOnlyUnstorable`).
- An unban that overtakes a storable record in flight does not last (`UnbanOvertakingQueueReturns`), and
  only then does it not (`UnbanLastsExactlyWhenNothingIsInFlight`).
- A crash forgets what is only in memory or in flight: afterwards exactly the networks with an active,
  unexpired, readable row are enforced (`CrashKeepsExactlyTheRows`).
- A peek that stops early can turn a coherent browser into a spoofed one, for want of GREASE or of `h2`;
  no cut does so exactly when the cipher suites alone satisfy the check
  (`TruncationIsHarmlessExactlyWhenSuitesVouch`). There are such hellos for every short list of suites
  (`SmallHelloIsSpoofedWhenCut`).
- The bytes `h2` are looked for anywhere in the ALPN data, length bytes included: inside a name such as
  `h2c`, across the seam of two names, or in a length. The lists that look like an offer are characterised
  by `SeenToOfferH2Exactly`.
- `42` on one Content-Length line and `42,42` on another are refused although all elements are equal
  (`EqualElementsOnUnequalLinesRefused`, `ContentLengthDecision`). The rule that a GET announces no body
  lets every list through, `5,5` for one, and otherwise only zero (`ZeroRuleExactly`,
  `GetWithListedLengthAccepted`). A final transfer
  coding passes when it ends in `chunked`, `xchunked` for one (`TransferEncodingDecision`).
- Formula neutralisation can leave a formula behind spaces, when the raw text starts behind its spaces
  with a control character other than tab and CR, such as the ESC of a colour sequence or a lone
  `U+0001`, and shows a space and then the formula
  (`NeutralizedOpensFormulaExactlyWhenHidden`).
- A reader of the CSV export that takes CRLF for a line end drops a CR exactly from a user agent that
  ends with one and stands unquoted; a bare CR does not make the writer quote (`CrlfRoundTrip`). In the CSV field check the tests for a leading tab or CR
  never fire, because the text is trimmed first (`MarkedExactlyFormulas`).
- An exclude entry keeps an address from being banned as itself, but not as part of a network: an ingested
  network is tested by its address part only, and without `exact` an address bans its whole derived
  network (`IngestBansExcludedExactly`).
- A configured domain with a colon is never looked up (`ColonDomainIsNeverLookedUp`,
  `DomainReachableExactlyWithoutColon`); all others are served by their last listing route
  (`ListedDomainIsServed`).

## Model

| member | source | states |
|---|---|---|
| Networks.ContainsExactlyTheRange | src/quarantine/store.rs:160-171 | a network contains exactly the addresses of its family from its base on, 2^(32 - prefix) or 2^(128 - prefix) of them |
| Networks.ContainsNarrower | src/quarantine/store.rs:160-171 | a network contains all of every narrower one whose address it contains |
| QuarantineDb.QuarantineStore.RecordBan | src/quarantine/store.rs:107-138 | a ban commits exactly when both times are below 2^63; then the row is inserted, or expiry, count, agent and activity are updated, and one event with trigger and infraction is logged; otherwise nothing changes |
| QuarantineDb.QuarantineStore.SelectHits | src/quarantine/store.rs:149-171 | the rows an unban picks: the exact active key, otherwise every active network around a bare address, each once |
| QuarantineDb.QuarantineStore.Unban | src/quarantine/store.rs:140-189 | the returned list is exactly the rows picked; they are deactivated and logged in that order, or nothing happens |
| QuarantineDb.QuarantineStore.UnbanAll | src/quarantine/store.rs:191-219 | every active row is deactivated and logged once; the count is their number |
| QuarantineDb.QuarantineStore.GetActiveBans | src/quarantine/store.rs:221-236 | exactly the rows that are active, expire after now and have a count below 2^32, each once, newest first |
| StoreHistory.TableIsFoldOfHistory | src/quarantine/store.rs:107-219 | after any history a key has a row exactly when it was banned, and the row has first-write trigger, type and time, last-write expiry, last non-null agent, and the sum of all counts, which unbans never reset |
| StoreHistory.AuditLogDecidesActivity | src/quarantine/store.rs:132-218 | in every reachable table a row exists exactly when the log quarantined its key, is active exactly when the latest event is a quarantine, and two unbans of a key have a quarantine between them |
| StoreHistory.BanKeepsLogExplains | src/quarantine/store.rs:110-135 | a ban keeps the log decisive exactly when the record is active or the row already existed |
| StoreHistory.CountIsNumberOfBanEvents | src/quarantine/store.rs:115-135 | with unit counts the stored count is the number of quarantine events of the key |
| StoreHistory.UnbanAddressIsExact | src/quarantine/store.rs:157-188 | after unbanning an address no active row contains it, exactly the listed rows changed, each got one event, all others are as before |
| StoreHistory.UnbanNetworkIsExact | src/quarantine/store.rs:149-188 | unbanning a printed network touches at most its own row and logs only if it was active |
| Enforcement.SyncGivesAgreement | src/quarantine/ipc.rs:226-238 | equal expiries for every network give equal answers for every address and later time |
| Enforcement.BanKeepsAgreementExactlyWhenItFits | src/quarantine/ipc.rs:226-239 | after a ban both tiers agree for every address and later time exactly when the expiry fits a SQLite integer or has passed |
| Enforcement.UnbanKeepsSyncExactlyWhenSpeltRight | src/quarantine/ipc.rs:250-265 | an unban keeps the tiers in step exactly when it does not misspell the network of an unexpired row |
| Enforcement.UnbanKeepsAgreementExactlyWhenSpeltRightOrCovered | src/quarantine/ipc.rs:250-265 | after an unban both tiers answer alike exactly when it does not misspell the network of an unexpired row, or other networks in memory cover that network as long as the row lasts |
| Enforcement.MisspeltUnbanLeavesRow | src/quarantine/ipc.rs:250-265 | a network banned and then unbanned in another spelling is let through by memory while the table still holds it |
| Enforcement.RestartRestoresSyncExactlyWhenReadable | src/quarantine/mod.rs:86-104 | a restart restores synchrony exactly when every unexpired active row has a readable count |
| Enforcement.RestartRestoresAgreementExactlyWhenCovered | src/quarantine/mod.rs:86-104 | after a restart both tiers answer alike exactly when every unexpired row with an unreadable count is covered by the networks that were loaded |
| Enforcement.CacheAgreement | src/quarantine/ipc.rs:133-265 | after any run of admissible bans, unbans, clears and restarts, memory and store answer alike for every address at every time from the latest step on |
| Enforcement.FreshDaemonIsInSync | src/proxy/mod.rs:145-156 | a daemon on an empty database satisfies the premises of that |
| Enforcement.RunKeepsLogExplains | src/quarantine/ipc.rs:133-265 | the audit log keeps deciding existence and activity of every row through any run of the daemon |
| Enforcement.OfflineThenBootEqualsLive | src/quarantine/cli/mod.rs:107-160 | a command list run on the database and then booted decides every address like the same list sent to the running daemon |
| Enforcement.SameCommandsSameKeyLogs | src/quarantine/cli/mod.rs:107-160 | the same command list sent live or run on the database leaves every key the same audit trail of kinds and times |
| Interleaving.NothingIsLostOrRepeated | src/quarantine/mod.rs:72-120 | in every interleaving each accepted record is in flight, or stored exactly once if it fits, or dropped exactly once if not; the log counts the stored ones, and sent records are those handled, in hand and queued, in order |
| Interleaving.BanHalvesAreAtomic | src/quarantine/ipc.rs:226-239 | the two halves of a ban back to back are the atomic ban step |
| Interleaving.UnbanHalvesAreAtomic | src/quarantine/ipc.rs:252-254 | the two halves of an unban back to back are the atomic unban step |
| Interleaving.ClearHalvesAreAtomic | src/quarantine/ipc.rs:149-160 | the two halves of a clear back to back are the atomic clear step |
| Interleaving.TrapToTheEndIsABan | src/defense.rs:103-127 | a trap that meets an empty queue and runs to its end is a ban step |
| Interleaving.EveryInterleavingKeepsLogExplains | src/quarantine/store.rs:132-218 | in every interleaving the audit log says which rows exist and which are active, and unbans alternate with quarantines |
| LostBans.StepKeepsCoverExactlyWhenClean | src/quarantine/ipc.rs:226-265 | a step leaves every enforced network with an active row or a storable record in flight exactly when it neither enforces a network whose record does not fit and that has neither, nor deactivates an enforced row without such a record |
| LostBans.NoEnforcedBanIsLostExactlyWhenClean | src/defense.rs:103-127 | in any interleaving every enforced network has an active row or a storable record in flight at every moment exactly when all steps were clean, and then an active row once nothing is in flight |
| LostBans.BootIsCovered | src/proxy/mod.rs:148-156 | a daemon that has just rehydrated starts with every enforced network backed by an active row |
| LostBans.TrapRecordIsGoodJob | src/defense.rs:110-124 | the record of a trapped client names a printed network, expires in 24 hours, and fits the store exactly while that expiry does |
| LostBans.AtomicUnbanIsClean | src/quarantine/ipc.rs:252-254 | an unban whose halves run back to back never undoes a newer ban, however its target is spelt |
| LostBans.EveryInterleavingKeepsCanonicalKeys | src/quarantine/ipc.rs:226-239 | in every interleaving each row stands under its own key, the printed form of a network |
| LostBans.SerialUnbansLoseOnlyUnstorable | src/quarantine/ipc.rs:149-160 | from boot, with bans, traps and worker interleaved at will and each unban and clear running its halves back to back, no enforced network is lost exactly when every ban and trap has a record that fits or meets a backed network; so when all records fit |
| LostBans.QuietRunKeepsBacking | src/quarantine/mod.rs:107-120 | a run that neither bans, traps nor deactivates a network leaves it backed by row or storable record exactly if it was, and memory does not take it up |
| LostBans.UnbanLastsExactlyWhenNothingIsInFlight | src/quarantine/ipc.rs:250-265 | if the network is not banned, trapped or unbanned again, then once nothing is in flight its row is inactive exactly when no storable record of it was in flight as the store half of the unban ran |
| LostBans.CrashKeepsExactlyTheRows | src/quarantine/mod.rs:86-104 | after a crash at any moment exactly the networks with a row that is active, expires after boot and has a count below 2^32 are enforced, until their rows expire |
| LostBans.CrashIsRestart | src/quarantine/mod.rs:86-104 | a crash is the restart step of the atomic model, with nothing in flight |
| LostBans.CrashesKeepTheLogDecisive | src/quarantine/store.rs:132-218 | crashes at any moments of any interleavings leave a log that decides which rows exist and are active, and canonical keys |
| LostBans.UnstorableBanIsLost | src/quarantine/ipc.rs:226-239 | a ban whose record does not fit leaves its network enforced with no row and nothing in flight |
| LostBans.RebanDuringUnbanIsLost | src/quarantine/ipc.rs:226-254 | the interleaving after which memory enforces a network whose row is inactive, for every network |
| LostBans.UnbanOvertakingQueueReturns | src/quarantine/mod.rs:111-119 | the interleaving after which an unbanned network has an active row, for every network |
| TargetResolution.ExpiryIsExact | src/quarantine/ipc.rs:194 | the expiry is now plus the duration exactly while that is below 2^64, and never later |
| TargetResolution.LongBans | src/quarantine/ipc.rs:194 | durations whose expiry does not fit the store, and ones that wrap to 384 milliseconds |
| BanEffects.CommandBansAsAsked | src/quarantine/ipc.rs:194-246 | a ban command gives each network in memory the expiry if some target names it and leaves it alone otherwise; its row is new with the first target as trigger and the number of targets as count, or updated; the reply lists it once for each target |
| BanEffects.OneTargetNames | src/quarantine/ipc.rs:207-220 | an address names its /32 or /128 network in an exact ban and its derived network otherwise, slash text names the network it is |
| BanEffects.OtherKeysKeepRows | src/quarantine/ipc.rs:224-239 | a key that is no printed network keeps its row |
| QuarantineDaemon.ResolutionsCoincide | src/quarantine/cli/parsers.rs:187-213 | the daemon and the command line resolve every target alike |
| QuarantineDaemon.ExecBan | src/quarantine/ipc.rs:185-246 | one possible ban step per resolvable target; every network is banned as the targets that name it ask, with the given reason or the default one, until now plus the duration or a day, and listed in the reply once for each |
| QuarantineDaemon.ExecUnban | src/quarantine/ipc.rs:250-265 | one unban step per target, and the reply lists the rows deactivated, or the target when only memory held it |
| QuarantineDaemon.ReplyExactly | src/quarantine/ipc.rs:254-261 | an unban adds the rows deactivated, failing those the target if it removed a network from memory, else nothing |
| QuarantineDaemon.ExecUnbanAll | src/quarantine/ipc.rs:149-160 | one clear step, replying with the number of rows deactivated |
| QuarantineDaemon.Rehydrate | src/quarantine/mod.rs:86-104 | boot is the restart step, and reports the number of rows that are active, expire after now and have a count below 2^32 |
| QuarantineDaemon.RunPersistenceWorker | src/quarantine/mod.rs:107-120 | the worker stores the queued records in order and drops those that do not fit |
| QuarantineDaemon.DrainedIsHistory | src/quarantine/mod.rs:107-120 | the drained table is the one whose history goes on with the bans of the records that fit |
| QuarantineDaemon.ExecCliBanOffline | src/quarantine/cli/parsers.rs:50-72 | the offline ban writes the rows its targets name, as the daemon does, and fails exactly when some target resolves and the expiry does not fit |
| QuarantineDaemon.ExecCliUnbanOffline | src/quarantine/cli/mod.rs:125-132 | the offline unban performs one unban step per target and reports all rows deactivated |
| QuarantineDaemon.ExecCliClearOffline | src/quarantine/cli/mod.rs:153-155 | the offline clear performs one clear step |
| DaemonRun.Dispatch | src/quarantine/ipc.rs:133-160 | one command is a possible run of steps from the state it meets, admissible when the command is proper |
| DaemonRun.RunDaemon | src/quarantine/ipc.rs:128-265 | boot on a well-kept database and any list of proper commands and reboots leave memory and store with the same answer for every address at every time from the latest command on |
| ClientHello.ParseClientHello | src/tls_fingerprint.rs:44-153 | the cursor parser computes `Parse` on every byte string |
| ClientHello.GreaseValues | src/tls_fingerprint.rs:11-13 | exactly the sixteen reserved values are GREASE |
| ClientHello.NonGreaseOfConcat | src/tls_fingerprint.rs:94-101 | the suites without GREASE are taken list by list, in order |
| ClientHello.NonGreaseOfOne | src/tls_fingerprint.rs:94-101 | a suite drops out exactly when it is a reserved value |
| ClientHello.VerdictByTokens | src/tls_fingerprint.rs:158-204 | each verdict in terms of the tokens in the User-Agent, GREASE, `h2` and fewer than ten suites |
| ClientHello.TruncationMonotone | src/tls_fingerprint.rs:79-144 | if a prefix parses so does the buffer, with the same cipher fields and only more GREASE, SNI and h2 evidence |
| ClientHello.TrailingBytesIgnored | src/tls_fingerprint.rs:115-144 | bytes after a complete extensions block never change the result |
| ClientHello.TruncationKeepsCoherence | src/tls_fingerprint.rs:158-204 | coherent on a prefix implies coherent on the whole buffer, for every User-Agent |
| ClientHello.TruncationIsHarmlessExactlyWhenSuitesVouch | src/tls_fingerprint.rs:158-204 | every cut of the buffer that still parses is judged coherent exactly when no browser is claimed, or the suites hold GREASE and for Chrome and Edge are at least ten |
| ClientHello.ShortestCutIsSpoofed | src/proxy/mod.rs:107-111 | otherwise the cut behind the suites is judged spoofed, for want of GREASE or of HTTP/2 |
| HelloEncoding.RoundTrip | src/tls_fingerprint.rs:44-153 | parsing an encoded hello gives its number of suites, first three non-GREASE suites, and exactly the GREASE, SNI and h2 its extensions show |
| HelloEncoding.RoundTripOfCut | src/tls_fingerprint.rs:115-144 | a hello cut anywhere behind its compression length parses to its suites, the GREASE and server name of every extension whose type and length are left, and the `h2` of every ALPN extension left whole; cut shorter it does not parse |
| HelloEncoding.CoherentHelloIsSpoofedWhenCut | src/tls_fingerprint.rs:158-204 | an encoded hello with GREASE and `h2` among its extensions is coherent, and when its suites do not vouch its shortest cut is spoofed, for want of GREASE or of HTTP/2 |
| HelloEncoding.SmallHelloIsSpoofedWhenCut | src/tls_fingerprint.rs:158-204 | such a hello exists for every list of fewer than ten suites, with GREASE or without |
| HelloEncoding.OfferingH2IsSeen | src/tls_fingerprint.rs:132-139 | an ALPN list with `h2` is always seen to offer it |
| HelloEncoding.PairInAlpnData | src/tls_fingerprint.rs:132-139 | the data of a name list holds the adjacent bytes `h2` exactly when a name holds them, a length byte and its neighbour make them, or the list length does |
| HelloEncoding.SeenToOfferH2Exactly | src/tls_fingerprint.rs:132-139 | an encoded hello is seen to offer `h2` exactly when one of its ALPN lists looks so |
| HelloEncoding.OtherNamesCanLookLikeH2 | src/tls_fingerprint.rs:136 | lists without `h2` that look so: the name `h2c`, and `h` before any name of fifty bytes |
| Sanitize.ScrubAnsiAndControl | src/sanitize.rs:20-78 | the output is the part of the unbounded automaton's output that fits the budget |
| Sanitize.PlainCharacter | src/sanitize.rs:63-76 | outside escapes a tab becomes a space, characters below 0x20 and from 0x7f to 0x9f vanish, all others stay |
| Sanitize.CsiIsSkipped | src/sanitize.rs:31-40 | ESC `[` vanishes with all up to the first character from 0x40 to 0x7e, or to the end |
| Sanitize.OscIsSkipped | src/sanitize.rs:41-53 | ESC `]` vanishes with all up to the first BEL or ESC backslash, or to the end |
| Sanitize.EscapePairIsSkipped | src/sanitize.rs:54-60 | ESC and any other character vanish as two, a last ESC alone |
| Sanitize.Utf8Lengths | src/sanitize.rs:71-74 | the budget counts one to four bytes by code point |
| Sanitize.FitPrefixFits | src/sanitize.rs:71-74 | that part is a prefix within the budget in UTF-8 bytes |
| Sanitize.FitPrefixIsLongest | src/sanitize.rs:71-74 | every prefix within the budget is a prefix of it |
| Sanitize.ScrubWithinIsCleanAndIdempotent | src/sanitize.rs:18-78 | no control character survives, and scrubbing again changes nothing |
| Sanitize.CleanWithinBudgetIsUntouched | src/sanitize.rs:18-78 | a text comes back unchanged exactly when it is clean and within the budget |
| Sanitize.ScrubDistributesExactlyOutsideEscapes | src/sanitize.rs:29-61 | a text can be scrubbed in two pieces, whatever the second, exactly when the first ends outside an escape sequence |
| Sanitize.NeutralizedIsSafe | src/sanitize.rs:114-145 | no neutralised value starts with a formula character or holds a control character |
| Sanitize.NeutralizedExactly | src/sanitize.rs:114-145 | the quote is put exactly before values whose first character behind spaces is one of six, or whose scrubbed text starts with one of four; 4096 bytes are kept |
| Sanitize.NeutralizedOpensExactlyWhenUnguarded | src/sanitize.rs:114-145 | a neutralised value opens a formula behind spaces exactly when no look-ahead guard fires and the scrubbed text does |
| Sanitize.NeutralizedOpensFormulaExactlyWhenHidden | src/sanitize.rs:114-145 | that is so exactly when the raw text, behind its spaces, starts with a control character other than tab and CR and shows nothing but one or more spaces, within the budget, before a formula character outside escapes |
| Sanitize.NeutralizedMayStartFormulaAfterSpaces | src/sanitize.rs:117-138 | every control character but tab, CR and ESC hides a formula so, before or behind the space |
| CsvExport.FormatCsv | src/quarantine/export/mod.rs:153-177 | the export is the header line followed by one line per record |
| CsvExport.CsvRoundTrip | src/quarantine/export/mod.rs:153-177 | a reader with the quoting rules of section 2 of RFC 4180 gets back the column names and nine cells per record, text neutralised |
| CsvExport.EmptyExport | src/quarantine/export/mod.rs:154-156 | the nine column names |
| CsvExport.CellsByColumn | src/quarantine/export/mod.rs:157-175 | which field stands in which column, and how flags and missing agents are written |
| CsvExport.QuotedExactly | src/quarantine/export/mod.rs:54-60 | a field is quoted exactly for a comma, a quote or an LF |
| CsvExport.CrlfRoundTrip | src/quarantine/export/mod.rs:40-53 | a reader that also takes CRLF gets the same rows exactly when no user agent ends with a CR and stands unquoted, and otherwise loses just that CR |
| CsvExport.MarkedExactlyFormulas | src/quarantine/export/mod.rs:40-53 | a field is marked exactly when its first non-whitespace character opens a formula, and no marked field opens one |
| CsvExport.NeutralizedByFirstCharacter | src/quarantine/export/mod.rs:40-53 | the mark by the first character behind leading white space |
| CsvExport.NeutralizedCollisions | src/quarantine/export/mod.rs:40-53 | two values export alike exactly when equal, or one is the other already marked |
| HtmlEscape.EscapeIsEntityMap | src/quarantine/export/html.rs:188-195 | the five replacements in sequence are one map over the characters |
| HtmlEscape.EscapeIsInvertible | src/quarantine/export/html.rs:188-195 | escaped text has no raw markup and decodes to the original |
| FramingGuard.ValidateHeaders | src/framing_guard/mod.rs:97-152 | a header section passes exactly when `Accepts` holds; both framing headers are refused as such, and an illegal byte is reported for the first header that has one |
| FramingGuard.LegalValueExactly | src/framing_guard/mod.rs:88-93 | the legal bytes are the tab and those from 0x20 on but DEL |
| FramingGuard.SingleHeaderDecision | src/framing_guard/mod.rs:97-135 | which single headers pass, by their names in lower case |
| FramingGuard.BothFramingHeadersRefused | src/framing_guard/mod.rs:102-108 | a request with both framing headers is refused whatever else it has |
| FramingGuard.ValidateContentLength | src/framing_guard/mod.rs:154-200 | acceptance and, for readable lines, the exact verdict |
| FramingGuard.ContentLengthDecision | src/framing_guard/mod.rs:154-200 | the check passes exactly when all elements of all lines are one length text within the limit and the trimmed lines are equal |
| FramingGuard.SingleLineDecision | src/framing_guard/mod.rs:170-200 | for one line, equal elements within the limit are all it takes |
| FramingGuard.PlainNumberDecision | src/framing_guard/mod.rs:186-200 | a plain number passes exactly up to the limit, and beyond it the verdict names limit and number |
| FramingGuard.BadElementsVerdict | src/framing_guard/mod.rs:170-192 | elements that differ are refused before any is parsed, a single text that is no number as malformed |
| FramingGuard.EqualElementsOnUnequalLinesRefused | src/framing_guard/mod.rs:156-168 | equal elements on unequal lines are refused |
| FramingGuard.ZeroRuleExactly | src/framing_guard/mod.rs:137-149 | among accepted lengths the GET and HEAD rule passes exactly a list, of whatever number, and the number zero |
| FramingGuard.GetWithListedLengthAccepted | src/framing_guard/mod.rs:137-149 | for every length a GET with that length listed twice passes |
| FramingGuard.TransferEncodingDecision | src/framing_guard/mod.rs:116-130 | a line passes exactly when its last comma-separated coding ends in `chunked`, and that coding is `chunked` itself exactly when it has no more letters |
| FramingGuard.AnyNameEndingInChunkedAccepted | src/framing_guard/mod.rs:123-124 | any text in front of `chunked` passes |
| FramingGuard.FramingDecision | src/framing_guard/mod.rs:97-152 | a header section passes exactly when at most one framing header is there, all length elements are one length on equal lines with a list or zero for GET and HEAD, every final coding ends in `chunked`, and all bytes are legal |
| QueryRedaction.SensitiveExactly | src/telemetry.rs:138-146 | a key is sensitive exactly when one of eight words occurs in it in any case |
| QueryRedaction.RedactExactly | src/telemetry.rs:143-153 | the value of a sensitive key is replaced, other segments and segments without `=` are left alone |
| QueryRedaction.SegmentsOfSanitized | src/telemetry.rs:141-156 | sanitising maps the segments one by one |
| QueryRedaction.SegmentwiseEffect | src/telemetry.rs:143-153 | every segment keeps its key; only values of sensitive keys are replaced |
| QueryRedaction.SanitizeIdempotent | src/telemetry.rs:134-157 | sanitising twice is sanitising once |
| QueryRedaction.SanitizedRevealsNoSecret | src/telemetry.rs:134-157 | two queries sanitise alike exactly when they differ at most in values of sensitive keys |
| TelemetryRing.TelemetryRingBuffer.Record | src/telemetry.rs:82-88 | after any history the buffer is the latest entries since the last clear, up to the capacity and at least one |
| TelemetryRing.TelemetryRingBuffer.Clear | src/telemetry.rs:128-130 | clearing empties the buffer and keeps that invariant |
| TelemetryRing.TelemetryRingBuffer.Query | src/telemetry.rs:91-122 | the first matches from the newest end, fifty when the limit is zero |
| TelemetryRing.MatchesExactly | src/telemetry.rs:95-118 | each criterion by itself, and a filter as all of its criteria |
| TelemetryRing.QueryIsNewestMatches | src/telemetry.rs:95-121 | the answers match, come newest first, and no match newer than the oldest answer is passed over |
| Durations.ReparseOfParsed | src/quarantine/cli/parsers.rs:140-151 | printing parsed seconds and parsing them again gives them back |
| Durations.UnitsInSeconds | src/quarantine/cli/parsers.rs:159-185 | the five unit letters in seconds; no text is a day |
| Durations.UnitCaseIgnored | src/quarantine/cli/parsers.rs:159-160 | upper-case units mean the same |
| Durations.PaddingIgnored | src/quarantine/cli/parsers.rs:159-160 | white space around the text does not matter |
| Durations.DurationErrors | src/quarantine/cli/parsers.rs:166-184 | a number with an unknown unit is unrecognised, a unit behind what is no number is an invalid number |
| Durations.UnitTextValue | src/quarantine/cli/parsers.rs:159-185 | a number with a unit means that many units modulo 2^64, so the true product exactly when it fits a `u64` |
| Durations.TextToExpiryIsExact | src/quarantine/cli/parsers.rs:20-52 | from text to expiry nothing is lost while the true expiry is below 2^63 |
| Ingest.IsExcluded | src/quarantine/cli/parsers.rs:215-232 | an address is excluded exactly when some entry is a network around it or the address itself |
| Ingest.CoversExactly | src/quarantine/cli/parsers.rs:216-231 | an address entry covers that address, a network entry its range, a blank one nothing |
| Ingest.CollectTargets | src/quarantine/cli/parsers.rs:114-127 | the targets are exactly the eligible tokens |
| Ingest.EligibleExactly | src/quarantine/cli/parsers.rs:116-124 | a token is eligible exactly when its address, or the address part of its network, is covered by no entry |
| Ingest.ChunksCoverOnce | src/quarantine/cli/parsers.rs:140 | the batches laid end to end are the list, none is empty, only the last may be short |
| Ingest.BatchSize | src/quarantine/cli/parsers.rs:140 | every batch has at most five hundred targets and all but the last have as many |
| Ingest.IngestOffline | src/quarantine/cli/parsers.rs:114-151 | ingestion bans each eligible token once, in some order, batch by batch |
| Ingest.TokenBansExcluded | src/quarantine/cli/parsers.rs:187-213 | an eligible token bans an excluded address exactly when it is a network around it or, without `exact`, an address whose derived network is |
| Ingest.IngestBansExcludedExactly | src/quarantine/cli/parsers.rs:114-151 | an ingestion bans an excluded address exactly when some eligible token does so |
| Ingest.ExcludedByNameStillBanned | src/quarantine/cli/parsers.rs:116-124 | every network token, and without `exact` every derived network, bans each address inside it that is excluded by name, other than the one it is tested by |
| Router.ResolvedUpstreams | src/config/route.rs:34-52 | the pool is the named upstreams without later repetitions |
| Router.DistinctKeepsEachOnce | src/config/route.rs:34-52 | the pool has every named upstream once and keeps the first one first |
| Router.Validate | src/config/route.rs:95-118 | a configuration passes exactly when it has routes and each has a domain and an upstream |
| Router.New | src/router.rs:29-90 | a name maps to the last route that lists it; the default is the first route |
| Router.TargetExactly | src/router.rs:31-75 | a route's target: first upstream or 127.0.0.1:8080, pool, first domain, and racing as asked or with several upstreams |
| Router.CaseIsIgnored | src/router.rs:81-107 | the case of hosts and configured domains does not matter |
| Router.ResolveIsLastListing | src/router.rs:93-107 | a host goes to the last route listing its name, otherwise to the first route |
| Router.DomainReachableExactlyWithoutColon | src/router.rs:81-107 | a domain is found under its own name, with or without port, exactly when it has no colon |
| Router.ListedDomainIsServed | src/router.rs:29-107 | a listed domain without a colon goes, with or without port, to its last listing route |
| Router.ColonDomainIsNeverLookedUp | src/router.rs:81-107 | the key of a domain with a colon is never looked up |

## Left out

- `phylax` and `hippodrome`: not part of this model. In particular, a ban that the shield pipeline places by itself, without `notify_quarantine` (src/defense.rs:263-273), is never queued for the store and is outside the theorems on lost bans.
- NoEnforcedBanIsLostExactlyWhenClean: a record that will be dropped counts for nothing also while it is in flight. It speaks of networks, not expiries: a trap's expiry in memory is chosen by `phylax` and stored as 24 hours.
- CacheAgreement: covers atomic commands and restarts with an empty queue; with interleaved halves equality of the tiers does not hold.
- Network text: address parsing, printing and widening enter as a codec with laws, not as algorithms.
- SQLite, the write-ahead log, file paths, the socket and JSON: a store call is one atomic step that succeeds or fails only on integer range; disk errors are not modelled.
- Integer overflow of the infraction count column beyond a signed 64-bit integer: the count is unbounded in the table and bounded where it is read.
- Queries `get_all_records` and `get_audit_log`, `ListActive` and `Status`: plain reads.
- IngestOffline: the database path; the live path sends the same batches as ban commands, which `ExecBan` covers one at a time.
- Token extraction from log lines, `sanitize_host_banner`, the Markdown, JSON, TXT and HTML page formats: string assembly with little to prove.
- ParseDuration: lower-casing is ASCII only; the Unicode lower-casing of the source differs only on text that is refused either way, in the error message.
- Case of header names, multi-value storage of `HeaderMap`, and the response bodies of refusals: headers are an ordered list with lower-case names.
- Hedged racing, WebSocket tunnelling, certificates, ACME and process setup: input and output with little to prove.
