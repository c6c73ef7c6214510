# Agent Secret Bridge: verified model

A Dafny 4.11 model of the parts of Agent Secret Bridge that keep secrets safe and requests within
policy, with proofs for all inputs, all interleavings and all crashes. `dafny verify dfyconfig.toml`
checks the whole project.

## What is modelled

- **The encrypted vault under concurrency and crashes** (`VaultDisk`, `VaultMachine`, `VaultSafety`,
  `VaultRuns`, `VaultMap`, `VaultErrors`, `VaultProgress`). Any number of processes and threads call get, set and delete. The
  state is the directory (visible and durable entries, synced and unsynced contents, one temporary
  file per process id), the lock, and the position of each call. Every file-system call is one step
  and may fail; processes are killed and power is lost between any two steps. `Next` is one step,
  `Run` a sequence of them. A ghost history lists effects and answers in lock order; `Current` replays
  it on a plain map, and `VaultMap` says what that map holds by the last commit on each id alone.
- **The same code as methods** (`VaultFile`): `LoadPlain`, `SavePlain`, `Get`, `Set` and `Delete` in
  the order of the source. How each call into the operating system goes is given from outside (`env`),
  an error at any of them. Each method keeps the machine in step, so that its execution is a run of it.
- **Creating a vault** (`VaultInit`): any number of concurrent runs of `initialize`, with the hand-over
  of the key file.
- **Redaction** (`Redact`, `Utf8`, `Scalars`, `BoundedRead`, `ResponseBody`, `Base64`, `BasicAuth`): text is a byte
  string in UTF-8, by tables of bytes and, in `Scalars`, by code points; `Lossy` is decoding with replacement characters, `Replace` the leftmost
  non-overlapping replacement, `Truncate` the cut at a character boundary. The bounded pipeline is
  compared with redacting the entire body and cutting afterwards.
- **Key files** (`KeyFile`), **the rate limiter** (`RateLimit`), **path policy and URL joining**
  (`Policy`, `DotSegments`, `Authorize`), **configuration** (`Config`), **concurrent brokers on one limiter**
  (`Broker`), and **the JSON-RPC loop** (`Mcp`).

## Hypotheses

- The cipher is ideal: `Open` gives back what was sealed under the same key and nonce and refuses
  everything else, torn files included. The JSON codec of the vault payload round-trips, so that the
  sealed piece holds the map itself. Rename is atomic. The key file is durable before the vault is used.
- Power loss: any entry the vault's name has had since the directory was last synced may be found, and
  an unsynced file may hold anything. Every set of leftover temporary files is allowed afterwards.
- `AllReadable`: whenever `Path::exists` cannot read the status of an existing vault file (it then
  answers false), the operation is one for which the empty map gives the right result. `HarmlessExactly`
  and `ForgetsUnlessHarmless` say exactly which these are.
- Stale temporary files (`AllCalm`, for `StaleTempOnce` only): the process is not killed, power stays on,
  and no removal of its temporary file fails.
- Initialisation (`AllSpare`): no run removes a key file that a vault has appeared under, be it by its own
  rename or by another process's save. `KeyKeptExactly` shows the hypothesis to be exact; it holds when
  nobody else writes and no failure is reported after a rename (`CleanSpares`).
- The limiter: clock readings of at least one window (`ClockReady`) and at most `d` behind an earlier
  one in lock order (`SkewAtMost`). Time is in nanoseconds since the earliest instant the clock can hold.
- Redaction: secrets that do not overlap the marker, where `Redactable` is required. Without brackets
  it is enough not to lie inside it (`BracketFreeRedactable`).

## Findings

- If the file status cannot be read while a set is under way, the set returns success and all other
  secrets are gone (`UnreadableStatusForgets`).
- If the directory sync or the unlock fails after the rename in `initialize`, the key of an existing
  vault is removed (`LateFailureOrphansVault`; with no other run in between, exactly under the condition
  of `LateFailureExactly`).
- If another process saves between the creation of the key file and the recheck, `initialize` fails and
  removes the key of that save, which had returned success (`SaveOrphansVault`). Over whole runs the key
  is kept exactly when no run removes it after either of these (`KeyKeptExactly`).
- A call may return an error although its change is in force: exactly when the directory sync or the
  unlock reported an error after its rename (`ErrorAfterChange`). The change is its own and whole
  (`OnlyOwnCommit`).
- For a secret of one or two bytes the overlap is so short that, at every bound but zero, a character
  split by the read limit changes bytes below it (`ShortSecretDiffers`); from three bytes on the agreement
  is byte for byte (`BytesAgreeExactly`).
- The visible body can differ from the ideal one for secrets longer than the marker, at bounds of more
  than ten bytes (`ExactWithinMarker`). For ASCII secrets that do not start with an opening bracket,
  `ExactCondition` says for which lengths and bounds.
- An empty secret leaves no overlap at all, and a character split by the bound shows as U+FFFD
  (`EmptySecretExactly`). `secret add` refuses an empty secret (`src/main.rs:344`), so it can only come
  from the keyring itself or from a library call.
- While the monotonic clock is younger than a minute the cutoff falls back to the current reading, and
  calls in order are never limited (`YoungClockNeverLimits`, `InstantLimitExactly`). It takes a platform
  whose `Instant` cannot go back a minute.
- A path rule that is not written in normal form (with a space or an encoded dot segment, say) passes
  validation and can never match (`RuleLiveExactly`, `RuleWithSpaceDead`).
- A request path that reads `//` once tabs and newlines are dropped names a host of its own; only the
  origin test then stands in the way (`NamesAuthorityExactly`; `TabbedNamesHost` gives such requests).
- JSON-RPC 2.0 asks for an error response to a value that is no request; the server answers nothing to
  values without an `id` member (`ConformsExactly`), arrays included (`ArrayUnanswered`). The comment in
  `src/mcp.rs:95` speaks of notifications only.

## Model

| member | source | states |
|---|---|---|
| VaultRuns.Linearizable | src/vault.rs:166-300 | in every interleaving, with errors, kills and power losses anywhere, one sequential history of a plain map explains every answer; the file holds the map it leads to; a call that returned an answer is in it once, between its start and its return |
| VaultRuns.RealTimeOrder | src/vault.rs:166-177 | a call that has returned an answer before another is invoked comes before it in that history |
| VaultMap.RegisterLaw | src/vault.rs:253-300 | in every legal history: a get is answered with v if and only if the last commit in force on its id is a set to v, or there is none and the vault held v at the start, and is unavailable otherwise; a delete succeeds if and only if some value is held and is unavailable otherwise; a set succeeds |
| VaultMap.AnswerLaw | src/vault.rs:253-269 | in every run, the same of the answer a get has returned, at some moment between its start and its return |
| VaultMap.FileLaw | src/vault.rs:253-300 | in every run, the visible file holds v under an id if and only if the commits in force say so |
| VaultMap.ReplayHolds | src/vault.rs:271-300 | the plain map after any commits holds v under an id if and only if the last commit on it is a set to v, or there is none and it was there at the start |
| VaultRuns.MutualExclusion | src/vault.rs:166-177 | no two calls are ever between taking and releasing the lock |
| VaultRuns.OnlyOwnCommit | src/vault.rs:227-247 | one step leaves the plain map as it is, or is the rename of the advancing call and has exactly that operation's effect |
| VaultErrors.ErrorAfterChange | src/vault.rs:166-177 | in every interleaving, a set or delete that has returned is in force if and only if it returned success or, after its rename, met an error at the directory sync or at the unlock; in the latter case it returned an error |
| VaultErrors.LateErrorReturns | src/vault.rs:240-247 | a call right behind its rename, with any luck from there on, returns an error if and only if the directory sync or the unlock reports one; the file holds its effect either way |
| VaultRuns.CrashRecovers | src/vault.rs:227-247 | after a power loss between any two steps the file holds a complete map: the first n commits in lock order, among them every set and delete that returned success |
| VaultRuns.OldOrNew | src/vault.rs:234-247 | without an error or kill between rename and directory sync, recovery finds the current map or, only while a call is between the two, the map before that call |
| VaultRuns.SuccessIsForever | src/vault.rs:271-300 | a set or delete that returned success stays in force after any further steps, crashes included |
| VaultRuns.AckedGrows | src/vault.rs:271-300 | a success once returned is never taken back |
| VaultSafety.StepKeeps | src/vault.rs:166-300 | the invariant behind the theorems: legal history, one entry per commit since the last sync, lock and temporary file owned by one call |
| VaultSafety.EntriesRecovered | src/vault.rs:239-241 | every entry that a power loss can leave decrypts to the map of one prefix of the commits |
| VaultMachine.HarmlessExactly | src/vault.rs:179-182 | taking the vault to be absent gives the right answer and map exactly for a get or delete of an id the map does not hold, and for a set when the map holds no other id |
| VaultDisk.OpenExactly | src/vault.rs:186-206 | a key opens exactly the complete files sealed under it, to the map that was sealed |
| VaultProgress.UndisturbedCall | src/vault.rs:166-300 | a call that meets no error, on a map m: a get returns m's value or is unavailable, a set leaves the file holding m with the id set, a delete m without the id, or is unavailable and changes nothing |
| VaultProgress.SectionCompletes | src/vault.rs:166-248 | the same from any point inside the critical section |
| VaultProgress.StaleTempOnce | src/vault.rs:233-247 | however many saves follow, a leftover temporary file makes at most one of its process id fail |
| VaultProgress.CollisionRecovers | src/vault.rs:233-247 | that failure removes the file, leaves vault and history unchanged and frees the lock |
| VaultProgress.SavePath | src/vault.rs:209-248 | an undisturbed save ends with the sealed map as the only, synced vault file and no temporary file |
| VaultProgress.UnreadableStatusForgets | src/vault.rs:179-182 | a set whose existence test fails on an existing vault returns success with a file that holds the new secret alone |
| VaultProgress.ForgetsUnlessHarmless | src/vault.rs:179-182 | it does no harm if and only if that id was the only secret |
| VaultFile.EncryptedFileVault.LoadPlain | src/vault.rs:179-207 | the map in the file, or the empty map exactly if there is no file or the existence test reports an error; without errors it loads what opens; disk and lock unchanged; a run of the machine |
| VaultFile.EncryptedFileVault.SavePlain | src/vault.rs:209-248 | success means one durable file holding exactly this map; failure leaves the visible file old or new, whole; without errors it succeeds if and only if no temporary file of the process was left, and leaves none; other temporary files unchanged; a run of the machine |
| VaultFile.EncryptedFileVault.Get | src/vault.rs:253-269 | the answer is the value the loaded map m has under the id, or unavailable if it has none; without errors the answer is given whenever the file opens; disk unchanged; the machine has returned the same outcome |
| VaultFile.EncryptedFileVault.Set | src/vault.rs:271-284 | success means the file durably holds m[id := value] for the loaded map m; otherwise old or that; without errors it succeeds; the machine has returned the same outcome |
| VaultFile.EncryptedFileVault.Delete | src/vault.rs:286-300 | success means id is in the loaded map m and the file durably holds m - {id}; unavailable means it is not in m, and nothing changes; without errors it is one of the two; the machine has returned the same outcome |
| VaultFile.CallIsRun | src/vault.rs:253-300 | what a method does is a run of the machine from the state before it, so the theorems on runs apply |
| VaultInit.InitializeSafe | src/vault.rs:129-156 | among any number of concurrent initialisations, with kills and saves of other processes anywhere, at most one returns success, and whenever the vault file exists the key file holds the key that opens it, as long as no run removes a key file that a vault has appeared under |
| VaultInit.KeyKeptExactly | src/vault.rs:145-155 | over every run: the key file opens the vault in every state if and only if no run removes it that met an error behind its own rename or under which another process saved |
| VaultInit.CleanSpares | src/vault.rs:146-154 | without another writer and without a failure reported after a rename, no run ever does |
| VaultInit.SaveOrphansVault | src/vault.rs:145-154 | another process's save between the key file's sync and the recheck is acknowledged, and the run then removes the key it was saved under |
| VaultInit.RemovesOnlyOwnKey | src/vault.rs:152-154 | a run removes only a key file it created itself; there is no vault then if and only if none has appeared under that run |
| VaultInit.StepKeeps | src/vault.rs:129-156 | the invariant behind both: one owner of the key file, one lock holder, vault sealed under the key on file |
| VaultInit.LateFailureExactly | src/vault.rs:146-155 | from right after the rename, with no other run in between: the run fails exactly if the directory sync or the unlock reports an error, and the key file opens the vault at the end if and only if neither did or the removal of the key file failed too |
| VaultInit.LateFailureOrphansVault | src/vault.rs:152-155 | both failures occur: after a run that went well so far, either one leaves a vault without its key |
| VaultInit.UndisturbedInitialize | src/vault.rs:129-156 | a run alone succeeds: the key file holds the drawn key, the vault file is the empty map sealed under it |
| Redact.RedactText | src/redact.rs:5-14 | the loop over the secrets is the replacement of each in list order, empty ones skipped |
| Redact.ReplaceLeftmost | src/redact.rs:9-11 | the first occurrence is replaced and the scan goes on behind it |
| Redact.ReplaceNothing | src/redact.rs:9-11 | a text without the secret stays as it is |
| Redact.ReplaceLength | src/redact.rs:9-11 | each replacement changes the length by the difference of the two words |
| Redact.RedactAllNothing | src/redact.rs:5-14 | a text that holds none of the secrets stays as it is |
| Redact.SecretAbsent | src/redact.rs:5-14 | no redactable secret of the list occurs in the output, whatever else is in the list and in whatever order |
| Redact.RedactAllKeepsAbsence | src/redact.rs:7-12 | later replacements never recreate a secret that is gone |
| Redact.SecretAbsentAfterCut | src/http.rs:185-194 | nor does the final truncation |
| Redact.NoStraddle | src/redact.rs:3 | a secret that does not overlap the marker cannot straddle one |
| Redact.BracketFreeRedactable | src/redact.rs:3 | a secret without brackets is redactable if and only if it is not part of the marker |
| Redact.RedactableExactly | src/redact.rs:5-14 | among bracket-free secrets, the redactable ones are exactly those that never survive |
| Redact.ReplaceRestores | src/redact.rs:9-11 | putting the secret back for the marker restores the text: nothing else was touched |
| Utf8.LossyWellFormed | src/http.rs:185 | lossy decoding gives well-formed UTF-8 |
| Utf8.LossyIdentity | src/http.rs:185 | and leaves well-formed text as it is |
| Scalars.WellFormedExactly | src/http.rs:185 | a text is well-formed if and only if it is the encodings of some Unicode scalar values in order, by the arithmetic of section 3 of RFC 3629 |
| Scalars.LossyKeeps | src/http.rs:185 | lossy decoding keeps the encoding of every scalar value, whatever follows |
| Scalars.LossyReplaces | src/http.rs:185 | where no encoding stands, it puts one U+FFFD for the longest piece that still begins one, or for one byte |
| Scalars.PieceExists | src/http.rs:185 | there always is such a piece, so one of the two applies to every text |
| Utf8.LossySplit | src/http.rs:185 | decoding a stream cut anywhere, up to the last unfinished character, is a prefix of decoding it whole |
| Utf8.TruncateLongest | src/http.rs:187-194 | the cut is the longest well-formed prefix within the bound and loses at most three bytes of it |
| Utf8.TruncateIgnoresRest | src/http.rs:187-194 | the cut depends only on the bytes within the bound |
| ResponseBody.CutBody | src/http.rs:187-194 | the loop stepping back to a boundary ends at the longest well-formed prefix that fits, at most three bytes short |
| ResponseBody.RenderBody | src/http.rs:148-194 | for any chunking: the redaction of the first max plus overlap bytes, for the secret and the token if there is one, cut at max; a redactable secret and a redactable token do not occur in it; not truncated means it is the redaction of the whole response; without a token it is the `Shown` of the theorems below |
| ResponseBody.BytesAgree | src/http.rs:159-194 | for one secret of three bytes or more, of length L with k replacements made, the bounded and the fully redacted text have the same first max - k * max(0, L - 10) bytes |
| ResponseBody.BytesAgreeExactly | src/http.rs:159-194 | at a given bound these bytes agree for all bodies if and only if the secret has at least three bytes or the bound is zero |
| ResponseBody.ShortSecretDiffers | src/http.rs:161-169 | for every secret of one or two bytes and every bound from one on, a body where they do not: a character split by the read limit decodes differently below the bound |
| ResponseBody.BoundedAgrees | src/http.rs:159-194 | for one secret of any length, both texts cut at a character boundary agree for every cut up to that bound |
| ResponseBody.Agree | src/http.rs:159-194 | the induction behind it: two texts that part late are redacted alike up to the bound |
| ResponseBody.ExactWhenShort | src/http.rs:159-194 | with no replacement, or L at most 10, the returned body is exactly the cut of the fully redacted body |
| ResponseBody.ExactWithinMarker | src/http.rs:159-194 | with a bound of at most ten bytes, every body is shown exactly, whatever the secret |
| ResponseBody.ExactCondition | src/http.rs:159-194 | for ASCII secrets that do not start with an opening bracket, every body is shown exactly if and only if L and max satisfy `AlwaysExact` |
| ResponseBody.EmptySecretExactly | src/http.rs:161-194 | with an empty secret, every body is shown exactly if and only if max is below three |
| ResponseBody.EmptySecretSplitsCharacter | src/http.rs:161-194 | for every max from three on, a body whose character split by the bound shows as U+FFFD, where the whole body would be cut in front of it |
| ResponseBody.TwoSecretsAgree | src/http.rs:159-194 | for a secret and a token of three bytes or more, both redactions agree for every cut up to max less the length of the shorter of the two and the cost of the replacements |
| ResponseBody.OneOfTwoAgrees | src/http.rs:159-194 | where one of the two does not occur, only what the replacements of the other cost is lost |
| BoundedRead.ReadChunks | src/http.rs:169-184 | the first min(length, limit) bytes of the stream, truncated iff it is longer, whatever the chunks |
| BoundedRead.ReadLimited | src/ssh.rs:313-335 | the same for the loop that drains the pipe up to the first empty read |
| BoundedRead.ReadersAgree | src/ssh.rs:313-335 | on equal streams both readers return the same bytes and flag |
| Base64.DecodeEncode | src/vault.rs:139 | decoding what was encoded gives the bytes back |
| Base64.EncodeDecode | src/vault.rs:311-313 | a text that decodes is the encoding of what it decodes to |
| Base64.Alphabet | src/http.rs:120 | an encoding consists of letters, digits, plus, slash and padding |
| Base64.QuadIsNumber | src/vault.rs:139 | four letters are the digits to the base of 64 of the number that three bytes make up |
| KeyFile.TrimAsciiWhitespace | src/vault.rs:320-328 | both loops together remove all whitespace at the two ends and nothing else |
| KeyFile.KeyFileRoundTrip | src/vault.rs:139-143 | the file initialisation writes, or any whitespace padding of the encoding, reads back as the key, never by the raw branch |
| KeyFile.KeyFilesExactly | src/vault.rs:303-318 | a file reads as a key if and only if it is the 32 raw bytes or, at another length, trims to their encoding |
| BasicAuth.TokenRedactable | src/http.rs:118-124 | no Basic token lies inside the marker or shares its brackets |
| BasicAuth.TokenDecodes | src/http.rs:119-120 | the token decodes to the name, a colon and the password |
| BasicAuth.MarkerFactorDecodes | src/redact.rs:3 | every whole base64 group inside the marker decodes to bytes without a colon |
| BasicAuth.TokenNeverReturned | src/http.rs:118-194 | for every username, password and response, body and content type never contain the derived token |
| BasicAuth.PasswordNeverReturned | src/http.rs:118-194 | nor the password itself, if it is redactable |
| RateLimit.RateLimiter.Check | src/rate_limit.rs:17-32 | the pruning loop and the append compute the specified verdict and queue, and touch no other id |
| RateLimit.LimiterSafety | src/rate_limit.rs:17-32 | with readings at most d out of order, no window shorter than a minute less d holds more than the maximum of admitted calls |
| RateLimit.SlidingMinute | src/rate_limit.rs:9-32 | with readings in order, no window shorter than 60 seconds in nanoseconds holds more than the maximum |
| RateLimit.WindowLengthTight | src/rate_limit.rs:17-32 | a window of a minute less d can hold more: the length is the best possible |
| RateLimit.QueueHoldsWindow | src/rate_limit.rs:22-24 | pruning never drops a stamp that a later window still needs |
| RateLimit.SimpleCount | src/rate_limit.rs:17-32 | with readings in order, a check admits exactly when the count over the whole history is below the maximum, and the queue is those calls |
| RateLimit.Independent | src/rate_limit.rs:21 | leaving out all other capabilities changes neither queue nor verdicts |
| RateLimit.YoungClockNeverLimits | src/rate_limit.rs:19 | while the clock is younger than a window, every check with readings in order and a limit of at least one is admitted |
| RateLimit.InstantLimitExactly | src/rate_limit.rs:17-32 | no history admits more than the limit at one instant if and only if the clock has run for a window by then |
| Policy.MatchesIsContainment | src/policy.rs:75-80 | a prefix rule matches exactly the paths whose segments begin with its own, an exact rule exactly its own |
| Policy.InclusionIsOrder | src/policy.rs:75-80 | one prefix rule grants all another does if and only if its segment list is a prefix of the other's |
| Policy.NoRuleMatchesAll | src/config.rs:442-455 | a rule that passes validation misses `/` or `/a` |
| Policy.NormalPathClean | src/policy.rs:33-42 | a parsed path is in normal form for every request: nothing left to encode, no dot segment in any spelling |
| Policy.NormalPathIdentity | src/policy.rs:42 | parsing a path in normal form changes nothing |
| Policy.SegmentsOfSerialized | src/policy.rs:42 | splitting a serialised path gives its segments back |
| DotSegments.DotsExactly | src/policy.rs:33 | a segment counts as one or two dots if and only if it is spelled by plain dots and encoded ones in either case |
| DotSegments.UpCancels | src/policy.rs:33-42 | a segment and any spelling of two dots behind it cancel out, in front of any rest |
| DotSegments.UpAtRoot | src/policy.rs:33-42 | two dots at the root are dropped |
| DotSegments.DotDropped | src/policy.rs:33-42 | a single dot is dropped |
| DotSegments.DotsAtEnd | src/policy.rs:33-42 | at the end of the path, before a query or not, either one leaves an empty segment |
| DotSegments.PlainPath | src/policy.rs:33-42 | a path without dot segments keeps its segments, each encoded |
| DotSegments.EncodedDecodes | src/policy.rs:33-42 | decoding what was percent-encoded gives what decoding the original gives |
| DotSegments.KeptExactly | src/policy.rs:33-42 | the bytes kept are the visible ASCII characters but nine: the path percent-encode set of the URL Standard |
| Authorize.NamesAuthorityExactly | src/policy.rs:61-73 | a validated request names a host of its own if and only if it starts with two slashes once tabs and newlines are out |
| Authorize.HostJoined | src/policy.rs:33 | the host named is the text behind two or more slashes or backslashes up to the next one or a question mark; path and query are what follows |
| Authorize.PathJoined | src/policy.rs:33 | behind a single slash the join keeps the base's authority and takes path and query from the request |
| Authorize.JoinDrops | src/policy.rs:33 | a tab, line feed or carriage return inside a request and control characters and spaces around it make no difference to the join |
| Authorize.NamedHostJudged | src/policy.rs:33-40 | a tabbed request that names a host is joined to that host, and is denied for the origin if host or port differ, as a bad URL if it does not parse |
| Authorize.JoinKeepsOrigin | src/policy.rs:33-40 | without tab or newline the join succeeds and keeps scheme, host and port |
| Authorize.AuthorizedSound | src/policy.rs:11-59 | every authorised URL has an allowed method, the capability's origin, a path in normal form, and lies in the subtree or at the path of a rule |
| Authorize.AuthorizedExactly | src/policy.rs:11-59 | every request without control characters and spaces: the method not allowed, the path refused, or authorised if and only if a rule reaches its normal path, with that path, the query and the base's origin |
| Authorize.UpRequest | src/policy.rs:33-53 | a request that goes down a segment and up again, in any spelling, is judged exactly as the one that does neither |
| Authorize.EncodedUpRefused | src/policy.rs:33-53 | `/api/%2e%2e/admin` passes validation and is refused under the rule for `/api` |
| Authorize.DotRequestRefused | src/policy.rs:61-73 | a plain dot segment is refused wherever it stands in front of the query |
| Authorize.ForeignRequestRefused | src/policy.rs:61-73 | so is a request that is not absolute, names an authority or a scheme, or holds a backslash or a number sign |
| Authorize.CleanRequestValid | src/policy.rs:61-73 | every other path in normal form passes |
| Authorize.AuthorizedStable | src/policy.rs:42-53 | resolving the authorised path once more gives the same path |
| Authorize.CleanRequestUnchanged | src/policy.rs:33 | a valid request in normal form is matched as it stands |
| Authorize.QueryPassedOn | src/policy.rs:33-42 | a query plays no part in the match and is passed on |
| Authorize.TabbedNamesHost | src/policy.rs:61-73 | for every host of plain bytes a request that passes validation and names it |
| Authorize.RuleLiveExactly | src/policy.rs:43-53 | a validated rule can match some request if and only if it is written in normal form |
| Authorize.RuleWithSpaceDead | src/config.rs:442-455 | a validated rule with a space matches no request |
| Authorize.RuleRefused | src/config.rs:442-455 | a rule is refused for a dot segment, a star that is not in a terminal `/*`, a backslash, question mark or number sign, and if it is not absolute |
| Authorize.CleanRuleValid | src/config.rs:442-455 | every path in normal form without a second slash is an exact rule, if it has no star, and the stem of a prefix rule |
| Config.Validate | src/config.rs:193-220 | succeeds if and only if the version is one, vault and key file differ, every capability is valid and no id occurs twice in the two lists; a reported duplicate is one |
| Config.HttpExactly | src/config.rs:268-352 | an HTTP capability is valid if and only if ids, methods and rules are, its limits lie within the bounds, and its base has a host and no credentials, query or fragment, over https, or over http with the flag |
| Config.SshExactly | src/config.rs:354-404 | the same of an SSH capability: ids, port, limits, commands that are not empty, distinct operation ids |
| Config.ValidateSsh | src/config.rs:355-403 | succeeds if and only if all parts are valid and the operation ids are distinct |
| Config.LookupUnique | src/config.rs:222-232 | in a valid configuration lookup finds exactly the capability that carries the id, of one kind only |
| Config.NoOpenRule | src/config.rs:292-295 | every rule of a valid configuration misses some path in normal form |
| Broker.OwnAdmission | src/http.rs:81-134 | in every interleaving of HTTP and SSH calls, each send or spawn has an admitted check of its own capability that no other uses |
| Broker.LaunchLimit | src/ssh.rs:86-126 | sends and spawns of a capability, dated by admission, obey its limit in every window shorter than a minute less the skew |
| Broker.LimitIsOwn | src/config.rs:206-218 | the limit spoken of is that of the one capability with the id: no two share a queue |
| Broker.OnlyPermitted | src/mcp.rs:248-293 | every URL sent to has the configured scheme, host and port, plain http only with the flag, an allowed method and a path some rule reaches, by `http_read` with GET or HEAD only; every command spawned is configured for its capability, with the read-only flag of the tool used |
| Broker.HttpClearedExactly | src/http.rs:61-79 | a call of an HTTP capability goes on to the limiter if and only if its policy, with the base it is configured with, authorises the request and the read-only tool is used for GET and HEAD only; it then sends just that |
| Broker.SshClearedExactly | src/ssh.rs:58-79 | a call of an SSH operation if and only if the operation has the read-only flag of the tool used |
| Broker.UndisturbedCall | src/http.rs:61-134 | a call that meets no error launches what it was cleared for, once, if and only if its check is admitted, and uses up a check only if it is cleared |
| Broker.StepKeeps | src/http.rs:61-134 | the invariant behind them |
| Mcp.ServeIo | src/mcp.rs:38-89 | the loop writes exactly the replies of the lines of the stream, in order, and what it writes keeps the discipline below |
| Mcp.ResponseDiscipline | src/mcp.rs:55-113 | one response for each oversize line, unparsable non-blank line and message with an id, none for any other, in line order, each with its line's id; -32700 exactly for oversize and unparsable lines, -32600 exactly without a string method, -32601 exactly for a method other than the four, -32602 exactly if the line's tool call failed; otherwise the result that belongs to the line's method, for `tools/call` the one its own call returned |
| Mcp.LinesFramed | src/mcp.rs:46-54 | the lines make up the stream, each ending at its first newline |
| Mcp.LinesUnique | src/mcp.rs:46-54 | no other division into lines exists |
| Mcp.FramingRestarts | src/mcp.rs:46-54 | after a newline the framing depends on nothing before it |
| Mcp.OversizeNeverShifts | src/mcp.rs:55-66 | an oversize line costs one error response and leaves the replies to all other lines as they were |
| Mcp.ConformsExactly | src/mcp.rs:91-100 | which values are answered as JSON-RPC 2.0 asks: those with an id, and well-formed notifications |

## Left out

- The operating-system keyring, TLS and HTTP transport, process spawning, timeouts, signals and sockets: foreign calls; a send or spawn is an event.
- The internals of the cipher, of random generation, of JSON and of YAML: ideal or parameters; nonces are arbitrary, so nonce reuse is not modelled.
- Zeroizing of memory: not observable in the model.
- Permission, symlink, ownership and absolute-path checks on files, and the pin of the configuration file: single tests without state.
- Errors while receiving a response body: the call then returns an error and no text.
- The audit log, command line, tool descriptions, prompts and install scripts: plumbing.
- VaultRuns.SuccessIsForever: speaks of the commit history, because later commits may overwrite or delete the secret itself.
- VaultRuns.CrashRecovers: process ids after a restart are arbitrary, so leftover temporary files may have any name of the expected form; other files in the directory are not modelled.
- VaultInit.KeyKeptExactly: another process's save is one step, from taking the lock to releasing it, so a removal between its read of the key and its rename is not represented.
- VaultInit.InitializeSafe: covers process kills; power loss during initialisation is not modelled, because the source syncs the key file but not its directory entry before the vault is created.
- VaultFile.EncryptedFileVault.Set: the methods are the sequential view of one client; interleaving and crashes are in `VaultMachine`, whose steps are on values.
- ResponseBody.TwoSecretsAgree: gives a bound that suffices, not the best one; for a token shorter than three bytes, which Basic authentication never makes, it says nothing.
- ResponseBody.BytesAgree: speaks of one secret, where agreement is byte for byte; with a token it is stated at cuts (`TwoSecretsAgree`, `OneOfTwoAgrees`).
- ResponseBody.ExactCondition: says nothing of long secrets outside ASCII or starting with the marker's bracket, for which only the bounds of `BytesAgree` and `BoundedAgrees` are given.
- Authorize.AuthorizedSound: the text of a host is parsed by a parameter, user names and passwords in it are not represented, and the query is not percent-encoded; none of them plays a part in matching.
- Authorize.RuleLiveExactly: is relative to the path percent-encode set of the URL Standard, which includes the caret; a parser with another set has other normal forms, and so other rules that can never match.
- Config.Validate: base URLs enter as the result of parsing them; SSH host names, key files and the known-hosts file are not represented.
- Broker.LaunchLimit: the failures between admission and send or spawn are one action, `Fail`.
- Mcp.ServeIo: what a line reads as, after lossy decoding, trimming and JSON parsing, is a parameter, as are the tool results; responses are values, not their serialised bytes, and write errors end the loop in the source.
