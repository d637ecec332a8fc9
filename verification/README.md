# Zvault: verified models of the client core

Zvault keeps secrets on the user's devices. This project models the parts of its client code that do
arithmetic, keep state or parse and print formats, and proves what they are for:

- **Sign-in.** The SRP-6a exchange (RFC 5054, RFC 2945): both parties get the same key and proofs. `ModularPower`, `Srp`.
- **Dates.** Turning a day number into a Gregorian date, in both copies of the arithmetic. `Calendar`, `RequestDates`.
- **Generated passwords.** Counting by inclusion and exclusion over bit masks, classes of characters, and unbiased
  sampling. `Passwords`, `Generator`, `Sampling`, `GeneratedValues`.
- **Masking output.** A streaming masker against masking everything at once. `Masker`.
- **Who may read what.** The scope language, the list an agent is shown, agents' approvals and terminal sign-ins.
  `Text`, `Scope`, `Visibility`, `Registry`, `TerminalGrants`.
- **Messages and requests.** Newline-delimited messages over a buffered reader, and the extension's request
  multiplexer. `Wire`, `Host`.
- **Token snapshots.** Fetching pages, nearest-environment lookup, listing, reading and exporting.
  `Paging`, `Order`, `Snapshot`.
- **One-time codes.** `otpauth://` setups, base32 (RFC 4648), percent-encoding and codes (RFC 4226, RFC 6238), in Rust and
  in the browser. `Decimal`, `Utf8`, `Bits`, `Base32`, `Percent`, `Totp`, `ParsedSetups`, `Codes`.
- **The Emergency Kit.** The Secret Key, the page, the PDF file (ISO 32000-1) and the reader that gets the key back.
  `Chunks`, `SecretKeys`, `PdfText`, `KitPages`, `KitDocuments`, `KitReading`.

`Common` holds optional values, results, bytes and three facts about sequences. `dafny verify dfyconfig.toml` checks
everything.

## How it is modelled

Objects whose methods change their fields are classes (`Masker`, `Registry`, `TerminalGrants`, `Source`, `Host`, `Page`),
and loops are loops. Each is proved against a specification function, and the lemmas say what that function means. A run
is a sequence of events (`Registry`, `TerminalGrants`, `Host`): `After` gives the state it leads to, the class methods
are proved to take exactly these steps, and the theorems are about all runs. A stream cut into chunks is a sequence of
chunks, and the theorems are about every way of cutting it. What a specification function computes is also stated without
it, in terms of its input alone, by lemmas such as `Wire.FirstLineMeaning`, `Srp.ClientTranscript` and
`Codes.ExampleOfTheStandard`: an error made both in a function and in the code proved against it would break one of these.

Bytes are integers below 256; other integers are unbounded, and widths are written out where they decide something
(the 64-bit limits of sampling, saturating years, the masked 16-bit buffer, 32-bit operators of JavaScript). Random
draws are finite streams given as input; a run that uses one up stops as the code does when the generator fails, and a
redraw loop without an attempt limit gives no result. Hash functions, message authentication codes and decryption are
parameters.

## Properties that need a condition

Some statements one would expect hold only under a condition. In each case the code is modelled as it is, and the exact
condition is proved:

- The masker's output does not depend on how its input is cut **if and only if** no kept secret is a proper prefix of
  another (`Masking.ChunkingIsInvisible`). With secrets `abcd` and `abcdefgh`, the chunks `abcd`, `efgh` give one mask and
  four plain bytes. What is masked at all does not need the condition (`Masking.NothingLeaks`).
- An Emergency Kit reads back as it was made **if and only if** its sign-in address does not wrap to a line saying
  `EMAIL` and no wrapped line before the key reads as another Secret Key (`KitReading.ReadsBackExactly`). Both can happen
  with values the kit accepts: `KitReading.AddressCanSpoilTheEmail`, `KitReading.EmailCanSpoilTheKey`.
- A one-time-password setup that was read from any text survives being stored as its URI **if and only if** its issuer
  holds no colon, its account holds none when there is no issuer, and the URI is at most 4096 characters
  (`ParsedSetups.StoredRoundTrip`). Reading always gives trimmed labels; for setups of any labels trimming is the fourth
  condition (`OneTimePassword.UriRoundTrip`). A label `:a:b` is read and comes back cut (`ParsedSetups.ColonIsMisread`), and
  an issuer of 256 euro signs is read and cannot be read again (`ParsedSetups.LongUriIsRefused`).
- The two base32 decoders agree on ASCII text **if and only if** the text has a symbol outside the alphabet, or it has a
  line break or similar white space exactly when fewer than two symbols are left (`Base32.DecodersAgree`). They differ on
  `AA` with a line feed and on `A` (`Base32.DecodersDiffer`).
- The kit's date is the calendar date **if and only if** the year fits sixteen bits (`Calendar.KitDateExact`); the first
  wrong one is 1 January 65536 (`Calendar.YearOverflows`).
- The request stamp has its sixteen characters **if and only if** the year is below 10000
  (`RequestDates.StampIsTheTime`).

## Model

| member | source | states |
|---|---|---|
| Srp.Agreement | crates/zvault-crypto/src/srp.rs:89-145 | For all secrets, salts and groups, a client session is refused exactly when B is 0 mod N or the scrambler is 0; otherwise client and server get the same A, K, M1 and M2 and the server's proof is accepted |
| Srp.SharedSecret | crates/zvault-crypto/src/srp.rs:104-112 | (B - kv)^(a + ux) equals (A v^u)^b mod N for all exponents, with the subtraction as it is done on unsigned numbers |
| Srp.ClientSecret | crates/zvault-crypto/src/srp.rs:104-112 | The client's base is g^b whatever kv is, so adding N before subtracting kv mod N never goes below zero |
| Srp.ServerSecret | crates/zvault-crypto/src/srp.rs:195-208 | The server's power is g^((a + xu) b) mod N |
| Srp.PadRoundTrip | crates/zvault-crypto/src/srp.rs:173-182 | Reading a padded number gives the number; padding is 384 bytes exactly for the numbers that fit |
| Srp.PadOfInt | crates/zvault-crypto/src/srp.rs:173-182 | Every 384-byte value is the padding of the number it spells, so wire values and numbers correspond one to one |
| Srp.XorInPlace | crates/zvault-crypto/src/srp.rs:154-163 | The in-place loop replaces each byte by its XOR with the other string's byte where there is one, and leaves the rest of the array |
| Srp.ComputeProof | crates/zvault-crypto/src/srp.rs:154-163 | The proof is the hash of: H(N) with its bytes XORed by those of H(g) as far as these reach, then the hashed identity, salt, A, B and key |
| Srp.XorIsBitwise | crates/zvault-crypto/src/srp.rs:158-160 | For all bytes, bit i of the XOR is set exactly when bit i of the two operands differs |
| Srp.ClientRefuses | crates/zvault-crypto/src/srp.rs:89-109 | The client refuses exactly a B of another length than 384 bytes, a B that is 0 mod N, and a scrambler of 0 |
| Srp.ClientTranscript | crates/zvault-crypto/src/srp.rs:89-145 | Otherwise A is g^a mod N padded, K the hash of the padded (B - k g^x)^(a + ux) mod N with u the hash of A and B and k that of N and g, M1 the proof, M2 the hash of A, M1 and K, and an answer is accepted exactly when it is M2 |
| Srp.ServerTranscript | crates/zvault-crypto/src/srp.rs:195-208 | The verifier is g^x mod N, B is (k v + g^b) mod N, and the key the hash of the padded (A v^u)^b mod N |
| Srp.IntIsPositional | crates/zvault-crypto/src/srp.rs:173-182 | A byte string is read with its most significant byte first |
| Calendar.NextDayNumber | crates/zvault-emergency-kit/src/date.rs:40-55 | For every day number the result is a valid Gregorian date, and the next number gives the next calendar day, through months, leap years, centuries and eras |
| Calendar.CountingMatches | crates/zvault-emergency-kit/src/date.rs:40-55 | Day n is the date reached by counting n days from 1 January 1970 |
| Calendar.MatchesCounting | crates/zvault-sync/src/aws.rs:53-65 | The request signer's copy gives the same counted date for every Unix time |
| Calendar.KitDateExact | crates/zvault-emergency-kit/src/date.rs:50-54 | Month and day are always right, the year exactly while it is below 65536 |
| Calendar.YearOverflows | crates/zvault-emergency-kit/src/date.rs:50-54 | Day 23217004 is 1 January 65536 and is printed with the year 65535; the day before is printed correctly |
| RequestDates.StampIsTheTime | crates/zvault-sync/src/aws.rs:53-72 | For every Unix time the stamp spells the counted date and the hours, minutes and seconds of the day, each in its place, and has sixteen characters exactly while the year is below 10000 |
| Passwords.CountIsExact | crates/zvault-passwords/src/password.rs:105-125 | For disjoint classes, the counting recurrence is the number of words over the pool that use every class |
| Passwords.MaskSumIsCount | crates/zvault-passwords/src/password.rs:105-125 | The signed sum over all bit masks is that count |
| Passwords.FractionValid | crates/zvault-passwords/src/password.rs:105-125 | The loop's fraction, times pool^len, is exactly the count |
| Generator.ClassesSeparate | crates/zvault-passwords/src/password.rs:46-67 | Whatever the options, no character occurs twice in or across the classes |
| Generator.PoolClasses | crates/zvault-passwords/src/password.rs:71-80 | The pool is the disjoint union of the classes, and its size the sum of theirs |
| Generator.ClassesAre | crates/zvault-passwords/src/password.rs:46-67 | The classes are the selected alphabets in the order small letters, capitals, digits, symbols, each ascending and without the characters to avoid; none is made for an alphabet not selected |
| Generator.PoolIs | crates/zvault-passwords/src/password.rs:46-80 | For all options, the pool holds exactly the small letters, capitals, digits and symbols that are selected, less 0, O, 1, I and l when these are to be avoided |
| Generator.SpelledAccepted | crates/zvault-passwords/src/password.rs:81-96 | The acceptance test lets through exactly the words counted |
| Generator.ReturnsAcceptable | crates/zvault-passwords/src/password.rs:81-96 | Whatever the draws, a returned password is one of the counted words |
| Generator.OneBlockEach | crates/zvault-passwords/src/password.rs:81-96 | Every counted word is spelled by exactly one block of draws, so accepted blocks make all equally likely |
| Generator.FirstGoodIsReturned | crates/zvault-passwords/src/password.rs:81-96 | The word spelled by the first block of draws that uses every class is returned, if it is among the attempts allowed |
| Generator.NoneIsReturned | crates/zvault-passwords/src/password.rs:81-101 | If no block among the attempts allowed spells such a word, nothing is returned |
| Generator.DrawWord | crates/zvault-passwords/src/password.rs:81-88 | One attempt spells the next len draws over the pool, or fails with the generator |
| Generator.GeneratePassword | crates/zvault-passwords/src/password.rs:71-101 | Refuses lengths outside 8 to 128 and no classes, otherwise returns the first acceptable word among 1000 attempts, with the exact share of acceptable words |
| Generator.FractionOf | crates/zvault-passwords/src/password.rs:105-125 | The reported fraction times pool^len is the number of passwords that can be returned |
| Sampling.RemainderIsExact | crates/zvault-passwords/src/random.rs:7-21 | The overflow-free expression is 2^64 mod n, for every n from 1 to 2^64-1 |
| Sampling.BelowIsUniform | crates/zvault-passwords/src/random.rs:7-21 | Every residue below n comes from the same number of accepted 64-bit draws, and more draws are accepted than rejected |
| Sampling.Below | crates/zvault-passwords/src/random.rs:7-21 | The answer is the first draw below the largest multiple of n that 64 bits hold, modulo n, and there is none exactly when no draw is below it |
| Sampling.FirstBelowIs | crates/zvault-passwords/src/random.rs:14-20 | The same of the specification, with the bound written out as 2^64 - 2^64 mod n |
| Sampling.AnswersAreUniform | crates/zvault-passwords/src/random.rs:7-21 | For every r below n, the 64-bit values that, drawn once, are answered with r are 2^64 / n in number |
| Sampling.BytesAreUniform | crates/zvault-agent/src/manage.rs:536-552 | Every character index comes from the same number of accepted bytes |
| Sampling.CharOfMeaning | crates/zvault-agent/src/manage.rs:536-552 | A byte from a whole block of n values below 256 stands for the character of its place in the block; bytes past the last whole block stand for none |
| Sampling.GenerateValue | crates/zvault-agent/src/manage.rs:536-552 | For any characters, the nested loops return the first len accepted characters of the stream, len clamped to 12 to 256, however they fall over the 64-byte buffers |
| GeneratedValues.CharsDistinct | crates/zvault-agent/src/manage.rs:528-529 | The 68 characters of a generated value are all different |
| GeneratedValues.CharactersAreUniform | crates/zvault-agent/src/manage.rs:536-552 | Each of those characters comes from exactly three of the 256 byte values |
| GeneratedValues.GeneratePassword | crates/zvault-agent/src/manage.rs:536-552 | A value is the first accepted characters of the stream, of the clamped length and of those characters only |
| Masking.Keep | crates/zvault-agent/src/mask.rs:20-35 | The kept secrets are exactly the given ones of at least four bytes, longest first |
| Masking.NothingLeaks | crates/zvault-agent/src/mask.rs:38-80 | For every secret set and chunking: putting back what masks cover restores the input, every mask covers an occurrence of a given secret of at least four bytes, and no byte passed through starts one in the whole stream |
| Masking.CleanInputPasses | crates/zvault-agent/src/mask.rs:38-80 | For every chunking, input without a kept secret comes out unchanged |
| Masking.WrittenAs | crates/zvault-agent/src/mask.rs:55-80 | A byte passed through is written as it is, a masked secret as eight asterisks, whatever its length |
| Masking.ChunkingIsInvisible | crates/zvault-agent/src/mask.rs:38-80 | All chunkings give the output of one pass over the whole input if and only if no kept secret is a proper prefix of another |
| Masking.CutInsideLonger | crates/zvault-agent/src/mask.rs:38-80 | A secret that another extends, cut after the shorter one, comes out differently |
| Masking.ScanLeaves | crates/zvault-agent/src/mask.rs:55-80 | A scan leaves at most what it may hold back; after a push to a masker with secrets that is less than the longest secret |
| Masking.Masker.ScanPending | crates/zvault-agent/src/mask.rs:55-80 | The index loop gives the rendering and the leftover of the specified scan |
| Masking.Masker.Push | crates/zvault-agent/src/mask.rs:38-46 | Appends, scans, and keeps exactly what the scan left |
| Masking.Masker.Finish | crates/zvault-agent/src/mask.rs:49-53 | Scans everything held and leaves nothing |
| Masking.Pump | crates/zvault-cli/src/run.rs:63-81 | Copying writes the masked stream of all chunks read and the flush at the end |
| Scope.RefRoundTrip | crates/zvault-agent/src/reference.rs:93-125 | Parsing gives r if and only if r is valid and prints as that text |
| Scope.ScopeRoundTrip | crates/zvault-agent/src/reference.rs:164-191 | The same for scopes |
| Scope.PlaceRoundTrip | crates/zvault-agent/src/reference.rs:149-161 | A printed scope typed as a place is that scope |
| Scope.AllowsIsTextual | crates/zvault-agent/src/reference.rs:136-144 | A prefix scope allows r exactly when r's text starts with the scope's text without its star; an exact scope exactly when the texts are equal |
| Scope.SlugMeaning | crates/zvault-agent/src/reference.rs:42-55 | A name is a slug exactly when it is at most 64 small letters, digits and dashes, and no piece between its dashes is empty |
| Scope.KeyMeaning | crates/zvault-agent/src/reference.rs:58-65 | A name is a key exactly when it is 1 to 128 letters, digits and underscores and does not start with a digit |
| Scope.PrintedForms | crates/zvault-agent/src/reference.rs:116-191 | A path prints as zv://project/environment/[folder/]key, a place as zv://, its names joined by slashes, and /* |
| Scope.RefErrors | crates/zvault-agent/src/reference.rs:96-113 | Which error a path is refused with: the scheme, then the number of parts, then the key, then a name |
| Scope.ScopeErrors | crates/zvault-agent/src/reference.rs:167-181 | Which error a scope ending in /* is refused with: the scheme, more than three names, or a name |
| Scope.PlaceMeaning | crates/zvault-agent/src/reference.rs:149-161 | For every text typed as a place, slashes and then stars at its end are dropped in any number; what is left is the place of those names if there were any or it has at most two, and a path otherwise |
| Visibility.ProjectKept | crates/zvault-agent/src/manage.rs:493-521 | A project is shown exactly when some well-formed secret in it is allowed |
| Visibility.EnvironmentKept | crates/zvault-agent/src/manage.rs:493-521 | An environment of it is shown exactly when some well-formed secret there is allowed |
| Visibility.FolderKept | crates/zvault-agent/src/manage.rs:493-521 | A folder of it is shown exactly when some well-formed secret there is allowed |
| Visibility.VisibleIsProjection | crates/zvault-agent/src/manage.rs:493-521 | The list shown is the projection of `allows` onto the project list, in its order |
| Visibility.RetainEach | crates/zvault-agent/src/manage.rs:493-521 | Each environment and folder is kept or dropped on its own, and the order stays |
| AgentRegistry.AlwaysSound | crates/zvault-agent/src/policy.rs:159-305 | After every run: ids stay unique, and grants exist only for paired agents in fifteen-minute mode |
| AgentRegistry.GrantsAreApprovals | crates/zvault-agent/src/policy.rs:278-308 | After every run, an agent in that mode holds a live grant for r exactly when r was approved for it less than 900 seconds ago with no lock, successful update or unpairing since |
| AgentRegistry.DecisionMeaning | crates/zvault-agent/src/policy.rs:251-284 | After every run, for every paired agent: access is allowed exactly when nothing refuses it and the agent is allowed while unlocked, or is in fifteen-minute mode and was lately approved for every reference; it is asked for with Touch ID exactly in ask-every-time mode, and without it exactly in fifteen-minute mode with some reference not lately approved |
| AgentRegistry.RefusalMeaning | crates/zvault-agent/src/policy.rs:251-269 | After every run, a request is unauthorized exactly when no agent has the id; for a paired agent it is refused as paused exactly when the agent is, else as bad exactly without references, else as out of scope exactly when some reference is allowed by no scope, else as locked exactly when the app is |
| AgentRegistry.StepFinds | crates/zvault-agent/src/policy.rs:180-248 | A step changes what is found under an id only if it is about that id, and its mode only by a successful update |
| AgentRegistry.Registry.PairKind | crates/zvault-agent/src/policy.rs:180-208 | Pairing fails without a visible name, then at 32 agents, then over 64 scopes; otherwise the record is added at the end with its name cleaned, unpaused and never used, and grants stay |
| AgentRegistry.CleanNameMeaning | crates/zvault-agent/src/policy.rs:104-115 | A cleaned name has 1 to 64 characters, no control character and no white space in front; there is none exactly when every character is a control character or white space |
| AgentRegistry.Registry.Unpair | crates/zvault-agent/src/policy.rs:211-215 | Unpairing removes the agent with the id, if any, and returns it; the others keep their order, and its grants end |
| AgentRegistry.Registry.Update | crates/zvault-agent/src/policy.rs:218-248 | An update fails over 64 scopes, then for a blank name, then for an unknown id, and then changes nothing; otherwise it replaces exactly the given settings of that agent and ends its grants |
| AgentRegistry.Registry.Approved | crates/zvault-agent/src/policy.rs:287-296 | An approval drops the agent's expired and repeated grants and adds new ones, only in fifteen-minute mode |
| AgentRegistry.Registry.Touch | crates/zvault-agent/src/policy.rs:298-302 | The time of use is noted on the agent with the id, if any, and nothing else changes |
| AgentRegistry.Registry.OnLock | crates/zvault-agent/src/policy.rs:305-308 | Locking ends all grants and keeps the agents |
| Terminals.UseMeaning | crates/zvault-agent/src/policy.rs:323-354 | After every run, a terminal has time left exactly when its latest sign-in was not ended, is under an hour old, and was never unused for ten minutes; the time left is positive and at most ten minutes |
| Terminals.TimeLeft | crates/zvault-agent/src/policy.rs:337-354 | After every run, a signed-in terminal has time left up to ten minutes after its last use or an hour after its sign-in, whichever is first |
| Terminals.SignedInIsLatest | crates/zvault-agent/src/policy.rs:323-354 | That reading of the history is decided by the latest session alone |
| Terminals.TableIsCache | crates/zvault-agent/src/policy.rs:323-354 | The table always holds the latest session's start and last use, or nothing once it is over |
| Terminals.StaysSignedOut | crates/zvault-agent/src/policy.rs:337-354 | Once no time is left there is none later, whatever happens, until the terminal signs in again |
| Terminals.TerminalGrants.Grant | crates/zvault-agent/src/policy.rs:324-327 | Signing in starts both clocks of this terminal |
| Terminals.TerminalGrants.Revoke | crates/zvault-agent/src/policy.rs:328-331 | Revoking removes this terminal and says whether it was there |
| Terminals.TerminalGrants.Clear | crates/zvault-agent/src/policy.rs:332-335 | Clearing removes every terminal |
| Terminals.TerminalGrants.UseGrant | crates/zvault-agent/src/policy.rs:344-354 | A use is allowed exactly when time is left, and then moves the idle clock only; otherwise the row is dropped |
| Wire.Source.ReadMessage | crates/zvault-agent/src/protocol.rs:381-403 | However the bytes arrive: the bytes before the first newline if they are at most MAX_MESSAGE, too large once there are more, closed if the stream ends first; exactly the line is consumed |
| Wire.FirstLineMeaning | crates/zvault-agent/src/protocol.rs:381-403 | A stream gives a message exactly when it starts with its bytes and a newline, they hold no newline and are at most 262144; it is too large exactly when its first 262145 bytes hold none, closed exactly when it ends before that without one |
| Wire.LineEndConcat | crates/zvault-agent/src/protocol.rs:381-403 | Where the first line of a stream ends is found buffer by buffer |
| Wire.WrittenFirst | crates/zvault-agent/src/protocol.rs:369-378 | A written message is the first line of the stream, whatever follows |
| Wire.ReadsBackWritten | crates/zvault-agent/src/protocol.rs:369-403 | Any sequence of written messages reads back as that sequence |
| Wire.ReadAll | crates/zvault-agent/src/protocol.rs:381-403 | Reading until the source ends gives the lines of the stream, for every way its buffers are cut |
| NativeHost.EveryRequestMeetsItsFate | apps/extension/src/host.ts:39-110 | After every run: ids are issued once and in order, each issued one is either pending or resolved exactly once, by the first event that ends it, and no other id is either |
| NativeHost.ReplySettles | apps/extension/src/host.ts:82-110 | After every run, a message that is no event and names a pending request resolves it and no other, once: as a success exactly when it says ok, otherwise as a failure with its code or "error" and its message or "Zvault could not do that." |
| NativeHost.TimeoutSettles | apps/extension/src/host.ts:45-48 | After every run, a timeout resolves its pending request and no other, with code "timeout" and "Zvault did not answer." |
| NativeHost.DisconnectSettles | apps/extension/src/host.ts:66-77 | After every run, a disconnect resolves all pending requests in order, with code "notInstalled" exactly when the reason says "not found", "forbidden" or "not allowed" in any case and "error" otherwise, and the reason or "Lost the connection to Zvault."; it forgets the port only if it is the open one |
| NativeHost.RequestStarts | apps/extension/src/host.ts:39-64 | After every run, a request takes the next id and waits at the end, or is resolved at once with code "notInstalled" when connecting or posting throws; a port is opened exactly when there is none and connecting works |
| NativeHost.StepOnOld | apps/extension/src/host.ts:62-110 | An event ends a pending request exactly as it says, and never touches a resolved one |
| NativeHost.StepOnNew | apps/extension/src/host.ts:39-60 | A new request waits under the next id, or is resolved at once when connecting or posting throws |
| NativeHost.DisconnectLeavesNothing | apps/extension/src/host.ts:66-77 | After a disconnect nothing is pending |
| NativeHost.LateReplyChangesNothing | apps/extension/src/host.ts:82-110 | A reply to an unknown or resolved id, or without an id, changes nothing |
| NativeHost.Host.Request | apps/extension/src/host.ts:39-60 | A request takes the next id, waits, and is resolved if connecting or posting throws |
| NativeHost.Host.OpenPort | apps/extension/src/host.ts:62-80 | The open port is used again, else a new one is opened |
| NativeHost.Host.OnMessage | apps/extension/src/host.ts:82-102 | A message takes the step of the run: it resolves the pending request it names unless it is an event |
| NativeHost.Host.OnTimer | apps/extension/src/host.ts:45-48 | The timer resolves its request if it is still pending |
| NativeHost.Host.OnDisconnect | apps/extension/src/host.ts:66-77 | A disconnect forgets its port only if it is the open one, and resolves all pending requests in order |
| NativeHost.Host.Settle | apps/extension/src/host.ts:104-110 | A pending request is removed and called back once; any other id is ignored |
| Paging.Load | crates/zvault-cli/src/cloud.rs:413-425 | The loop ends against any server, since it goes on only while the cursor grows, and collects the pages in order |
| Paging.ServedFrom | apps/api/src/tokens/tokens.service.ts:278-284 | A page is the next changes of the log, its cursor the number of the last one, and more are promised exactly when there are more |
| Paging.LoadsEverything | crates/zvault-cli/src/cloud.rs:413-425 | Client and server together: from every cursor reached, each remaining change of the log is fetched once and in order, for every log and page size |
| Order.RefOrder | crates/zvault-agent/src/reference.rs:68-75 | The derived order of paths is total, antisymmetric and transitive |
| Order.RefByFields | crates/zvault-agent/src/reference.rs:68-75 | Paths go by project, then environment, then folder, with none first, then key |
| Order.TextByFirstDifference | crates/zvault-agent/src/reference.rs:68-75 | One text comes before another exactly when it is a prefix of it or has the smaller character where they first differ |
| Order.SortStable | crates/zvault-cli/src/cloud.rs:343-360 | Sorting by path orders the entries and keeps the entries of each path in their order |
| TokenSnapshot.SourceIsNearest | crates/zvault-cli/src/cloud.rs:296-304 | A value comes from the nearest environment of the chain that has one, and is missing only if none has |
| TokenSnapshot.ReadIsNearest | crates/zvault-cli/src/cloud.rs:332-376 | Reading a path looks at the first secret held under it and gives the value of the nearest environment that has one, or fails to decrypt exactly when that value does not open |
| TokenSnapshot.ReadOutOfScope | crates/zvault-cli/src/cloud.rs:318-346 | Reading or exporting one path is out of scope exactly when no secret with a value in some environment of the chain has this project, environment, folder and key |
| TokenSnapshot.RefsAreHeld | crates/zvault-cli/src/cloud.rs:306-316 | A path is listed exactly when some such secret is held under it |
| TokenSnapshot.RefsExact | crates/zvault-cli/src/cloud.rs:306-316 | The list holds exactly the paths of secrets with a value, ascending and each once |
| TokenSnapshot.ReadAgreesWithRefs | crates/zvault-cli/src/cloud.rs:318-341 | Reading a path is out of scope exactly when the path is not listed |
| TokenSnapshot.ExportAgrees | crates/zvault-cli/src/cloud.rs:343-360 | A successful export is sorted, has entries for exactly the listed paths the prefix allows, and the first one of a path is what reading it returns |
| TokenSnapshot.ExportedValues | crates/zvault-cli/src/cloud.rs:343-376 | A successful export lists under each allowed path exactly the nearest values of the secrets held under it, one for each secret, in their order |
| TokenSnapshot.ExportOfOne | crates/zvault-cli/src/cloud.rs:344-345 | Exporting one path gives the one value reading it gives, or its failure |
| TokenSnapshot.ExportFails | crates/zvault-cli/src/cloud.rs:318-358 | An export of a place is out of scope exactly when its first name is not the project or its second not the environment, and fails to decrypt exactly when it is in scope and the nearest value of some secret under it does not open |
| TokenSnapshot.ExportFailure | crates/zvault-cli/src/cloud.rs:343-377 | An export is out of scope exactly when its place is, and fails to decrypt exactly when some readable secret under an in-scope prefix does not open |
| TokenSnapshot.Export | crates/zvault-cli/src/cloud.rs:343-360 | The collecting loop and the sort give the specified export |
| Bits.GatherSpread | crates/zvault-otp/src/lib.rs:258-297 | Cutting the bits of digits into digits gives them back, whatever bits are left over |
| Bits.BitsAppend | crates/zvault-otp/src/lib.rs:258-297 | Shifting a buffer and adding a value appends the value's bits |
| Base32.ExampleOfTheStandard | crates/zvault-otp/src/lib.rs:258-297 | The bytes of foo are MZXW6, and this is read back with or without its fill (section 10 of RFC 4648) |
| Base32.CleanedEach | crates/zvault-otp/src/lib.rs:262-267 | Spaces, tabs, dashes and equals signs are skipped, small letters read as capitals, and every other character kept |
| Base32.DecodeEncode | crates/zvault-otp/src/lib.rs:258-297 | For every byte string, regrouping into five-bit symbols with zero fill and back loses nothing |
| Base32.RoundTrip | crates/zvault-otp/src/lib.rs:258-297 | Every byte string comes back from its base32 text |
| Base32.Base32Decode | crates/zvault-otp/src/lib.rs:258-277 | The buffered loop gives the bytes spelled by the symbols, skipping what it skips, or nothing if a symbol is unknown |
| Base32.Base32Encode | crates/zvault-otp/src/lib.rs:280-297 | The buffered loop gives the symbols of the bits, the last one filled up with zeros |
| Base32.BrowserBase32Decode | apps/share-web/src/totp.ts:31-47 | The loop gives the same bytes although its buffer is cut to sixteen bits, and nothing for no bytes |
| Base32.DecodersAgree | apps/share-web/src/totp.ts:31-47 | On ASCII text the two decoders agree if and only if some symbol is unknown, or there is a line break or the like exactly when fewer than two symbols are left |
| Base32.DecodersDiffer | apps/share-web/src/totp.ts:31-47 | For AA with a line feed one decoder fails and the other gives a byte; for A one gives no bytes and the other fails |
| Percent.DecodeEncode | crates/zvault-otp/src/lib.rs:300-334 | Percent-decoding undoes percent-encoding, for every text, through its UTF-8 bytes |
| Percent.DecodeLabel | crates/zvault-otp/src/lib.rs:199-221 | Encoded issuer and account joined by a colon decode to their texts joined by a colon |
| Percent.EncodedByteMeaning | crates/zvault-otp/src/lib.rs:324-334 | Letters, digits and - . _ ~ @ stay; every other byte is a percent sign and its two capital hexadecimal digits |
| Percent.HexPairMeaning | crates/zvault-otp/src/lib.rs:306-309 | Two bytes are an escape exactly when they are hexadecimal digits in either case, or a plus sign and one digit |
| Percent.DecodedMeaning | crates/zvault-otp/src/lib.rs:300-320 | A plus sign is a space, an escape its byte, an escape cut short or without digits fails, and other bytes stay |
| Percent.PercentEncodeLoop | crates/zvault-otp/src/lib.rs:324-334 | The loop keeps unreserved bytes and escapes the others |
| Percent.PercentDecodeLoop | crates/zvault-otp/src/lib.rs:300-322 | The loop decodes escapes and plus signs, and fails on a broken escape or on bytes that are not UTF-8 |
| Utf8.DecodeEncoded | crates/zvault-otp/src/lib.rs:300-334 | Every text is read back from its UTF-8 bytes |
| Utf8.EncodeDecoded | crates/zvault-otp/src/lib.rs:300-334 | Bytes decode to a text if and only if they are its encoding, so every other byte string is refused |
| Utf8.EncodeCharMeaning | crates/zvault-otp/src/lib.rs:300-334 | The lead byte gives the number of bytes and the payloads spell the code point, six bits a byte |
| Decimal.ParsePrinted | crates/zvault-otp/src/lib.rs:134-176 | A printed number within the limit is parsed to itself |
| Decimal.ParseMeaning | crates/zvault-otp/src/lib.rs:168-169 | A text is read as n exactly when it is at least one digit, after one plus sign or none, that spell n, and n is not above the maximum |
| Decimal.ValueIsPositional | crates/zvault-otp/src/lib.rs:168-169 | Digits count ten times more in each place further to the left |
| OneTimePassword.ParseQuery | crates/zvault-otp/src/lib.rs:134-176 | The loop over the parameters applies them in order and stops at the first error |
| OneTimePassword.ParameterMeaning | crates/zvault-otp/src/lib.rs:154-171 | What each parameter does, its name in any case: its value is percent-decoded first, the three algorithms are named in any case, digits and period are numbers of 32 and 64 bits, and unknown parameters are ignored |
| OneTimePassword.KindMeaning | crates/zvault-otp/src/lib.rs:134-141 | After the scheme, hotp in any case is named as unsupported, and no slash or any kind but totp is invalid |
| OneTimePassword.BareKey | crates/zvault-otp/src/lib.rs:97-131 | Text without the scheme is a base32 key of 10 to 128 bytes for SHA-1, six digits and thirty seconds; a shorter one is too short, a longer or unreadable one invalid |
| OneTimePassword.NewMeaning | crates/zvault-otp/src/lib.rs:103-131 | Which error each setting outside its limits gives |
| OneTimePassword.PrintedForm | crates/zvault-otp/src/lib.rs:199-221 | The URI is the label, the secret, and then the issuer, algorithm, digits and period that differ from the defaults |
| OneTimePassword.QueryReads | crates/zvault-otp/src/lib.rs:134-221 | The printed parameters are read as the setup's secret, algorithm, digits, period and trimmed issuer |
| OneTimePassword.ParsedUri | crates/zvault-otp/src/lib.rs:85-221 | What parsing a printed setup gives, for every valid setup, whatever its labels |
| OneTimePassword.LabelsComeBack | crates/zvault-otp/src/lib.rs:134-176 | Both labels come back exactly when they are trimmed and no colon is where it would split them |
| OneTimePassword.UriRoundTrip | crates/zvault-otp/src/lib.rs:85-221 | For setups of any labels: parsing the printed URI gives the setup back if and only if both labels are trimmed, the colons are where they do no harm, and the URI is at most 4096 characters |
| ParsedSetups.ParsedIsClean | crates/zvault-otp/src/lib.rs:85-176 | Whatever text was parsed, the setup is within the constructor's limits, its secret is bytes, and both labels are trimmed |
| ParsedSetups.StoredRoundTrip | crates/zvault-otp/src/lib.rs:85-221 | A setup parsed from any text comes back from its URI if and only if its issuer holds no colon, its account holds none when there is no issuer, and the URI is at most 4096 characters |
| ParsedSetups.ColonIsMisread | crates/zvault-otp/src/lib.rs:142-147 | For every valid secret, the label :a:b is read as account a:b without an issuer, whose URI is read as issuer a and account b |
| ParsedSetups.LongUriIsRefused | crates/zvault-otp/src/lib.rs:86-90 | For every valid secret, a label naming 256 euro signs as issuer is read, and the setup's own URI is refused as too long |
| Codes.OrBelow | apps/share-web/src/totp.ts:92-97 | Joining a number bit by bit with one that fits below its lowest bit adds the two |
| Codes.ValuesAreTruncation | crates/zvault-otp/src/lib.rs:241-252 | The Rust arithmetic, and JavaScript's shifts, bitwise or and signed 32-bit integers, both give the dynamic truncation of section 5.3 of RFC 4226 |
| Codes.CodesAgree | apps/share-web/src/totp.ts:86-103 | For equal digests both give the same code: exactly as many digits as asked, spelling the truncation modulo 10^digits, with 1 to period seconds left |
| Codes.CodeOfWindow | crates/zvault-otp/src/lib.rs:224-237 | In second j of window k both give the code of counter k, valid for period - j seconds more |
| Codes.TruncatedMeaning | crates/zvault-otp/src/lib.rs:241-253 | The low four bits of the last byte are the offset, and the four bytes there count without their top bit |
| Codes.ExampleOfTheStandard | crates/zvault-otp/src/lib.rs:241-253 | The digest in section 5.4 of RFC 4226 truncates to 0x50ef7f19 and gives 872921 |
| Codes.OrIsBitwise | apps/share-web/src/totp.ts:92-97 | Bit i of the joined number is set exactly when it is set in one of the two |
| Chunks.FlatChunks | crates/zvault-emergency-kit/src/lib.rs:395-404 | Wrapping a value loses nothing of it |
| Chunks.FullChunks | crates/zvault-emergency-kit/src/lib.rs:395-404 | Every line but the last is full |
| SecretKeys.ToDisplayString | crates/zvault-crypto/src/secret_key.rs:72-83 | The loop prints the version, the id and the secret in groups of five |
| SecretKeys.ParseDisplayed | crates/zvault-crypto/src/secret_key.rs:39-83 | Every key is read back from its printed form |
| SecretKeys.ParseExact | crates/zvault-crypto/src/secret_key.rs:39-64 | A text is read as a key if and only if, without dashes, spaces and tabs, upper-cased and with look-alikes replaced, it is the version and that key's characters |
| SecretKeys.NormalEach | crates/zvault-crypto/src/secret_key.rs:40-50 | Dashes, spaces and tabs are dropped, O and o are 0, I, i, L and l are 1, other small letters are read as capitals, and every other byte as itself |
| SecretKeys.KeyMeaning | crates/zvault-crypto/src/secret_key.rs:9-26 | A key is six characters and twenty-five, each a digit or a capital other than I, L, O and U |
| SecretKeys.DisplayMeaning | crates/zvault-crypto/src/secret_key.rs:72-83 | The printed form is Z1, the id and five groups of five characters, with dashes between |
| SecretKeys.StrangerIsNoKey | crates/zvault-crypto/src/secret_key.rs:39-64 | A text with any byte a key cannot have is no key |
| PdfText.EscapeInto | crates/zvault-emergency-kit/src/pdf.rs:94-107 | The loop appends each byte plain, escaped or as three octal digits |
| PdfText.ReadBody | crates/zvault-emergency-kit/src/read.rs:66-102 | The inner loop reads one string with its escapes and nested parentheses, and stops right after it |
| PdfText.ReadStrings | crates/zvault-emergency-kit/src/read.rs:55-105 | The scanning loops find every literal string of a file |
| PdfText.BodyOfEscaped | crates/zvault-emergency-kit/src/read.rs:66-102 | For every byte string, reading its escaped form gives it back, and stops at its closing parenthesis |
| PdfText.StringIsFound | crates/zvault-emergency-kit/src/read.rs:55-105 | For every byte string, written in parentheses it is the next string found, and the search goes on after it |
| PdfText.EscapedByteMeaning | crates/zvault-emergency-kit/src/pdf.rs:94-107 | Parentheses and backslashes get a backslash, other visible ASCII and spaces stay, and every other byte is a backslash and three octal digits that spell it |
| PdfText.BodyMeaning | crates/zvault-emergency-kit/src/read.rs:66-102 | Inside a string parentheses nest and are kept, the one that closes it ends it, and other bytes stand for themselves |
| PdfText.BackslashMeaning | crates/zvault-emergency-kit/src/read.rs:70-87 | A backslash keeps the next byte as it is, unless that is an octal digit |
| PdfText.OctalMeaning | crates/zvault-emergency-kit/src/read.rs:72-82 | One to three octal digits after a backslash are one byte, their value cut to eight bits |
| KitPages.Page.Show | crates/zvault-emergency-kit/src/lib.rs:372-387 | A text is appended as one escaped string between its operators |
| KitPages.Page.Field | crates/zvault-emergency-kit/src/lib.rs:395-404 | A field is its label and then its value in lines of 69 bytes |
| KitPages.WritePage | crates/zvault-emergency-kit/src/lib.rs:132-221 | The page is the specified operations in order, and for every printable kit its stream fits the 65536 bytes reserved, so the assertion at the end never fails |
| KitPages.PageIsShort | crates/zvault-emergency-kit/src/lib.rs:128-221 | Every printable kit makes at most forty operations, of at most a hundred bytes of text each |
| KitPages.StreamStrings | crates/zvault-emergency-kit/src/lib.rs:376-387 | The texts of a page are found again in order, for every layout and whatever follows |
| KitPages.PageTexts | crates/zvault-emergency-kit/src/lib.rs:132-221 | Up to the Secret Key these are the two headings, the address, the email and the key, each under its label and wrapped |
| KitPages.AllTexts | crates/zvault-emergency-kit/src/lib.rs:132-221 | All texts of a page in order: after the key come the note, the password box, the five pieces of advice, each after a bullet, and the footer |
| KitPages.FooterMeaning | crates/zvault-emergency-kit/src/date.rs:57-62 | The footer is "Created on", the day, the month in letters and the year |
| KitPages.MonthNames | crates/zvault-emergency-kit/src/date.rs:3-16 | The twelve months by name |
| KitPages.EmailMeaning | crates/zvault-emergency-kit/src/lib.rs:81-91 | An email is accepted exactly when it is 3 to 254 visible ASCII characters, does not start with an @ and has one before its last character |
| KitPages.UrlMeaning | crates/zvault-emergency-kit/src/lib.rs:93-100 | An address is accepted exactly when it is at most 200 visible ASCII characters that start with https:// and go on after it |
| KitDocuments.AppendObject | crates/zvault-emergency-kit/src/pdf.rs:26-29 | An object is appended and its start recorded in its place of the table |
| KitDocuments.WriteDocument | crates/zvault-emergency-kit/src/pdf.rs:19-90 | The file is the header, the nine objects, the table of their recorded positions and the trailer |
| KitDocuments.StreamReads | crates/zvault-emergency-kit/src/pdf.rs:52-57 | The page is in a stream whose length is the number written before it |
| KitDocuments.CatalogAndPages | crates/zvault-emergency-kit/src/pdf.rs:31-42 | The catalog leads to object 2, and this to the one page, object 3 |
| KitDocuments.PageReads | crates/zvault-emergency-kit/src/pdf.rs:43-50 | The page is A4 in points and leads to its four fonts, objects 5 to 8, and its content, object 4 |
| KitDocuments.TrailerReads | crates/zvault-emergency-kit/src/pdf.rs:79-88 | The trailer names ten table entries, the catalog, object 1, and the information, object 9 |
| KitDocuments.StartXrefReads | crates/zvault-emergency-kit/src/pdf.rs:83-88 | The number between the last two marks of the file is read as the position that was written |
| KitDocuments.TableLeadsToObjects | crates/zvault-emergency-kit/src/pdf.rs:78-89 | A reader that takes the position after startxref, finds the table there, and follows the ten digits of an entry, is at that entry's object, for each of the nine (section 7.5.4 of ISO 32000-1) |
| KitDocuments.DocumentStrings | crates/zvault-emergency-kit/src/pdf.rs:19-90 | The file's literal strings are those of the page, then the title and the producer: no personal text in the metadata |
| KitDocuments.DocumentSize | crates/zvault-emergency-kit/src/pdf.rs:19-90 | A file is at most 4200 bytes longer than its page |
| KitReading.Render | crates/zvault-emergency-kit/src/lib.rs:50-59 | Refuses an unprintable email first, then an unprintable address, otherwise gives the file of the kit's page |
| KitReading.FindEmail | crates/zvault-emergency-kit/src/read.rs:40-51 | The loop joins the strings after the first EMAIL label up to the key's label, and checks the result |
| KitReading.Read | crates/zvault-emergency-kit/src/read.rs:23-36 | The first string that starts like a key and is one, and the email, unless the file is too long or is no PDF |
| KitReading.ReadMeaning | crates/zvault-emergency-kit/src/read.rs:23-36 | Nothing is read exactly from a file over 1048576 bytes, one that does not start with %PDF-, or one without a key; otherwise its first key and its email |
| KitReading.JoinedEmail | crates/zvault-emergency-kit/src/read.rs:40-51 | The email is what stands between the first EMAIL and the next SECRET KEY or the end, joined, exactly when each string is UTF-8 and the whole is visible ASCII with an @ |
| KitReading.KeyInMeaning | crates/zvault-emergency-kit/src/read.rs:28-31 | A string is a key exactly when it starts with Z1-, is UTF-8 and is read as that key |
| KitReading.OpeningKey | crates/zvault-emergency-kit/src/read.rs:28-31 | Among a kit's texts the key found is the first wrapped line that is a key, or else the printed one |
| KitReading.OpeningEmail | crates/zvault-emergency-kit/src/read.rs:40-51 | Among a kit's texts the email found is the printed one re-joined, with EMAIL before it if the address wraps to such a line |
| KitReading.RenderedReadsAs | crates/zvault-emergency-kit/src/read.rs:23-51 | What a rendered kit reads as, for every printable kit and layout |
| KitReading.ReadsBackExactly | crates/zvault-emergency-kit/src/read.rs:23-51 | A rendered kit reads back as its email and key if and only if no line of its address is EMAIL and no wrapped line is another key |
| KitReading.ShortAddressReadsBack | crates/zvault-emergency-kit/src/read.rs:23-51 | With an address of one line every kit reads back whose email fits a line or has no line that is a key |
| KitReading.OneLineEmailIsNoKey | crates/zvault-emergency-kit/src/read.rs:28-31 | An email that fits one line is never taken for a key |
| KitReading.AddressCanSpoilTheEmail | crates/zvault-emergency-kit/src/read.rs:40-51 | A valid 74-byte address for which the email read is not the email printed |
| KitReading.EmailCanSpoilTheKey | crates/zvault-emergency-kit/src/read.rs:28-31 | A valid 71-byte email for which the key read is the key of 31 zeros, so not the kit's own unless that is the one |
| KitReading.SpoilersAreValid | crates/zvault-emergency-kit/src/lib.rs:81-100 | The kit accepts that address and that email |

## Left out

- Hash functions, HMAC, HKDF, key derivation, encryption and signatures: parameters, or not needed.
- The fixed SRP group and its primality: any modulus from 2 up that fits 384 bytes is covered; agreement does not need a prime.
- Passwords.FractionValid: exact arithmetic over reals; the source adds and multiplies 64-bit floats.
- Generator.GeneratePassword: reports the exact fraction; the logarithm that turns it into bits is not modelled.
- Sampling.Below: a stream without an accepted draw gives no result; the source draws on.
- GeneratedValues.GeneratePassword: a stream of whole 64-byte buffers; when it runs out there is no value, where the source stops with the generator.
- Masking.Pump: the chunks a reader gives; interrupted reads and failed writes are not modelled.
- AgentRegistry.DecisionMeaning: the clock does not go back and ids of new agents are fresh, as random ids are taken to be; times do not overflow 64 bits.
- AgentRegistry.Registry.PairKind: the random id, token and its hash are part of the record given; authentication by token is not modelled.
- Terminals.UseMeaning: gaps are counted between all attempts to use a sign-in; a failed attempt ends the sign-in, so these are the successful ones.
- Wire.Source.ReadMessage: read errors and the JSON inside a line are not modelled.
- NativeHost.Host.OnMessage: the caller's event callback is not modelled, nor are its exceptions; the timer fires as an event, at any time.
- Visibility.VisibleIsProjection: works on values; the source shortens the lists of each project in place.
- Paging.LoadsEverything: the log does not change while it is read, and holds what the token may see.
- TokenSnapshot.Export: starts from decrypted names; building the snapshot from entries, and the keys, are not modelled.
- The browser's own URI parser (`parseTotp`) and non-ASCII upper-casing in its base32 decoder.
- Codes.CodesAgree: times below 2^53, where JavaScript numbers are exact; grouping digits for display is not modelled.
- KitPages.WritePage: positions, sizes, colours and fonts are arbitrary operators of at most 128 bytes without parentheses and backslashes.
- KitReading.Read: strings stay bytes; being UTF-8 is checked where the source checks it.
- The Recovery Kit, the activity log, version comparison, change descriptions and credential selection: they would add easy members.
- HTTP, sockets, the keychain, files, processes and all user interfaces.
- Zeroizing memory and constant-time comparison.
