# Verified model of the containment control plane

This project models the runtime security surface of a multi-tenant agent runtime and proves what it
promises. `dafny verify dfyconfig.toml` checks all of it.

| File | What it models |
|---|---|
| `Sequences.dfy`, `Text.dfy` | concatenation and substring search |
| `Redaction.dfy` | leftmost replacement by `[REDACTED]`, and passes of it over its own output |
| `Utf8.dfy`, `BaseEncodings.dfy` | UTF-8, base64 (both alphabets, padded and not), hexadecimal |
| `OutputScanner.dfy`, `ScannerGuarantees.dfy` | the scanner object and what a scan guarantees |
| `Forms.dfy` | which texts are encodings of a secret, told by decoders alone |
| `SecretSafety.dfy` | exactly which secrets a scan can promise to hide |
| `ScopedStore.dfy`, `StoreIsolation.dfy` | the per-tenant store view, noninterference, refinement |
| `StoreHistory.dfy` | what the store view answers, told from the history of operations |
| `Broker.dfy` | the credential broker |
| `PercentCoding.dfy`, `PosixPath.dfy`, `Egress.dfy` | the egress predicate |
| `EnforcingRegistry.dfy` | the gate pipeline of the task registry |
| `ControlPlane.dfy` | all of it as one state machine, and the properties of whole runs |
| `RunHistory.dfy` | credentials, ledgers and the decision log, told from the events of a run alone |
| `Deployment.dfy` | the objects that share one scanner and one broker, tied to the state machine |

Objects that the program updates in place are classes (`OutputScanner`, `RawStore`, `ScopedStore`,
`CredentialBroker`, `EnforcingTaskRegistry`, `Deployment`). Each of their methods is proved equal to a function on
the values of the fields (`RegisterAll`, `Scan`, `Step`, `Issue`, `IsValid`, `Revoke`, `UseModelKey`,
`AllowEffect`, `Refusal`, `Dispatch`, `Next`), and the theorems are about these functions and runs of them.

## What is assumed of the surroundings

- A text is a sequence of Unicode scalar values, so it can always be encoded as UTF-8.
- Fresh tokens, clock readings and store time stamps are handed in. In a legal run a token is any
  thirty-two url-safe base64 digits not issued before, and the clock does not go back.
- The host's raw store is an ordered sequence of records. A write replaces the record with its key
  where it is, or appends; a delete removes the record with the key.
- A tool is an arbitrary returned text or a failure. It leaves broker, scanner and registry alone.
- A guard asks the broker, or gives any answer, which may be another one at the next call. The credential
  guard changes nothing, the budget guard nothing but the broker's effect count.
- A URL comes split into its parts, scheme and host in lower case, or as one that cannot be split. The
  path of a split URL with a host is empty or starts with a slash.

## The main idea of the redactor

Each pass rewrites text that earlier passes produced, so the proofs need something that survives
rewriting. That is a *barrier*: a string that no occurrence of a pattern can share a position with, in
any text (`Redaction.Avoids`). A pass works on the two sides of a barrier independently
(`Redaction.ReplaceAcross`). A pattern is *marker safe* if the marker is a barrier for it; separators
with foreign characters are barriers as well. Completeness, exactness, idempotence and the absence of
fragments all follow from this one fact.

## Told from the history

The functions that specify the methods are not the last word: what they compute is also told without them.
`Forms` says through base64 and hexadecimal decoders which texts a secret brings into the table and under
which label. `StoreHistory` says through the operations of a run, and the documented key format, what a
fetch, a deletion or a listing answers. `RunHistory` says through the events of a run which credentials are
handed out and valid, which key uses are granted, and what every registry logs of every call. The percent
decoder is pinned on all texts: one decoding step exactly (`Utf8.DecodeStepExactly`), the ASCII characters
exactly (`PercentCoding.UnquoteAscii`), and slashes as cuts (`PercentCoding.UnquoteAcrossSlash`).

## Where the code does less than its documentation says

- Redaction is promised for every registered secret. It holds for the *safe* ones, none of whose
  encodings can overlap the marker, whatever else is registered, unsafe secrets included
  (`ScannerGuarantees.HistoryHidden`), and can be broken for every other one:
  `SecretSafety.SecretSafetyIsExact` proves that a secret is hidden by every scan after every history
  exactly when it is safe. Length is no protection: every secret that starts with `]` or ends with `[` is
  unsafe (`SecretSafety.BracketAtEndUnsafe`), and `SecretSafety.LongSecretSurvives` shows one of
  thirty-two characters surviving with nothing else registered. Without brackets a secret is at risk only
  through an encoding that is a substring of `REDACTED`; `ScannerGuarantees.ShortSecretSurvives` gives one
  that has no letter of the marker and survives by way of its base64 form `DA`. Nine characters without
  brackets are always enough, and tokens always qualify: `ControlPlane.TokensNeverShown` has no condition
  on the other secrets.
- An unsafe secret can still be hidden by its neighbours: it is *guarded* when a safe encoding in the table
  lies inside it, which a scan then always breaks up. `ControlPlane.NothingLeaksExactly` shows that this is
  the only way: one given pair of model key and backing secret is never shown by any call in any run
  exactly when all their encodings are guarded. `ControlPlane.ModelKeySafetyIsExact` and
  `ControlPlane.BackingSafetyIsExact` say the same of one secret and all its possible neighbours.
- The module text of the scoped store promises isolation for every tenant. The code does not check
  tenant ids: a tenant `a:x` writes under keys that belong to `a`. `StoreIsolation.IsolationExactly`
  gives the exact condition for each pair of tenants; ids without a colon always meet it.
- The scoped store is said to return own-tenant records redacted. It redacts contents and listed keys;
  the key, tenant, kind, name and time stamp of a returned record come back as stored
  (`StoreIsolation.FetchedRecordClean`, `StoreIsolation.NameIsNotRedacted`).

## Model

| member | source | states |
|---|---|---|
| OutputScanner.OutputScanner.constructor | src/agent_runtime/safety/output_scanner.py:62-64 | a new scanner has an empty table |
| OutputScanner.OutputScanner.Register | src/agent_runtime/safety/output_scanner.py:66-71 | the table afterwards is the old one with each non-empty value's encodings stored in order |
| OutputScanner.OutputScanner.ScanText | src/agent_runtime/safety/output_scanner.py:73-87 | the loop of passes with its detections equals the specified scan, and the scanner is unchanged |
| OutputScanner.PutKeys | src/agent_runtime/safety/output_scanner.py:64-71 | storing an entry keeps places of known keys, appends new ones, and never duplicates a key |
| OutputScanner.PutCategory | src/agent_runtime/safety/output_scanner.py:71 | the last registration of a key decides its category, and no other key's |
| OutputScanner.RegisteredExactly | src/agent_runtime/safety/output_scanner.py:66-71 | the keys of the table are exactly the non-empty encodings of what was registered, in any history |
| OutputScanner.RegisterIdempotent | src/agent_runtime/safety/output_scanner.py:58-71 | registering a value again leaves the whole table as it is |
| Forms.RepresentationsExactly | src/agent_runtime/safety/output_scanner.py:34-50 | the place of each representation holds exactly the text that decodes to the bytes in its alphabet, padding or case |
| Forms.EncodingsAreForms | src/agent_runtime/safety/output_scanner.py:34-52 | what a value brings into the table is the value and whatever decodes to its bytes: base64 in either alphabet, padded or not, hexadecimal in either case |
| Forms.LabelsExactly | src/agent_runtime/safety/output_scanner.py:34-71 | after any registrations the last value labels itself as a value, what decodes as hexadecimal as that, and the rest of its forms as base64; other labels stay |
| OutputScanner.ByLengthIsSort | src/agent_runtime/safety/output_scanner.py:83 | the pass order is a longest-first permutation of the keys that keeps ties in table order |
| Redaction.ReplaceAcross | src/agent_runtime/safety/output_scanner.py:86 | a replacement pass works on both sides of a barrier independently |
| Redaction.PassesAcross | src/agent_runtime/safety/output_scanner.py:83-86 | so does the whole sequence of passes |
| Redaction.PassesRemove | src/agent_runtime/safety/output_scanner.py:83-86 | no marker-safe pattern of the list survives the passes, in any order, on any text |
| Redaction.PassesCreateNothing | src/agent_runtime/safety/output_scanner.py:83-86 | passes bring no marker-safe string into being that was not in the text |
| Redaction.CutPartitions | src/agent_runtime/safety/output_scanner.py:79-87 | the simultaneous substitution is a partition of the input into kept stretches and listed patterns |
| Redaction.PassesAreOneSubstitution | src/agent_runtime/safety/output_scanner.py:79-87 | the multi-pass loop equals that one substitution on the original text |
| Redaction.WholePatternRedacted | src/agent_runtime/safety/output_scanner.py:82-86 | longest-first, a listed pattern on its own becomes exactly one marker |
| Redaction.NoFragments | src/agent_runtime/safety/output_scanner.py:82-86 | patterns between foreign separators each become one whole marker, separators unchanged |
| Redaction.HitsAreRedacted | src/agent_runtime/safety/output_scanner.py:83-86 | a pass finds something exactly when the one substitution redacts its pattern somewhere |
| Redaction.CompanionCompletes | src/agent_runtime/safety/output_scanner.py:86 | a replaced companion puts the marker where it completes a pattern that can overlap it |
| ScannerGuarantees.ScanComplete | src/agent_runtime/safety/output_scanner.py:73-87 | no marker-safe key of a table occurs in any scan result, whatever other keys the table has |
| ScannerGuarantees.HistoryHidden | src/agent_runtime/safety/output_scanner.py:57-87 | after any registrations whatever no encoding of a safe registered secret occurs in any scan result |
| ScannerGuarantees.GuardedHidden | src/agent_runtime/safety/output_scanner.py:73-87 | an unsafe key is hidden too if a safe key lies inside it |
| ScannerGuarantees.ScanSubstitutes | src/agent_runtime/safety/output_scanner.py:79-87 | input and output are the same pieces, a marker for each table encoding, no encoding in a kept piece |
| ScannerGuarantees.DetectionsEmpty | src/agent_runtime/safety/output_scanner.py:81-87 | for every table and text: nothing detected exactly when no encoding occurs, and then the text is unchanged |
| ScannerGuarantees.DetectionsExactly | src/agent_runtime/safety/output_scanner.py:81-87 | the reported categories are exactly those of the redacted pieces, each an encoding that was in the text |
| ScannerGuarantees.SortedHasAll | src/agent_runtime/safety/output_scanner.py:87 | the reported list has exactly the detected categories, once each, in label order |
| ScannerGuarantees.RescanHarmless | src/agent_runtime/safety/output_scanner.py:73-87 | scanning a scan result changes nothing and detects nothing |
| ScannerGuarantees.ScanLeavesNoFragments | src/agent_runtime/safety/output_scanner.py:82-86 | joined encodings come back as the separators and one marker an encoding, even when encodings nest |
| SecretSafety.SecretSafetyIsExact | src/agent_runtime/safety/output_scanner.py:22-87 | a secret is hidden in every history of any registrations exactly when no encoding of it can overlap the marker; so it is among safe secrets alone |
| SecretSafety.UnsafeSecretSurvives | src/agent_runtime/safety/output_scanner.py:66-87 | for every unsafe secret, a safe companion registered behind it and a text on which it survives |
| SecretSafety.OverlappingSecretSurvives | src/agent_runtime/safety/output_scanner.py:66-87 | the same where the raw secret itself is what overlaps the marker |
| SecretSafety.PassPosition | src/agent_runtime/safety/output_scanner.py:83 | a key is replaced after all longer keys and the equally long ones stored before it, and before all others |
| SecretSafety.NewestIsReplaced | src/agent_runtime/safety/output_scanner.py:66-87 | where no earlier pass and no later pass finds anything, the scan is the replacement of the value registered last |
| SecretSafety.CompanionIsSafe | src/agent_runtime/safety/output_scanner.py:34-52 | the companion's own encodings cannot overlap the marker, at any length |
| SecretSafety.BracketAtEndUnsafe | src/agent_runtime/safety/output_scanner.py:22 | a secret that starts with the marker's last character or ends with its first is unsafe, at any length |
| SecretSafety.ClosingBracketSurvives | src/agent_runtime/safety/output_scanner.py:66-87 | a secret that starts with a closing bracket survives when it alone is registered, if no machine encoding of it occurs in it followed by the rest of it |
| SecretSafety.LongSecretSurvives | src/agent_runtime/safety/output_scanner.py:66-87 | a secret of thirty-two characters of which this is so |
| SecretSafety.StaysCompleteExactly | src/agent_runtime/safety/output_scanner.py:66-87 | the keys of any table that leaves two control characters unused are hidden whatever is registered later exactly when every key has a safe one inside it |
| SecretSafety.PairSafetyIsExact | src/agent_runtime/safety/output_scanner.py:66-87 | two registered values are hidden whatever is registered later exactly when every encoding of theirs has a safe one inside it |
| ScannerGuarantees.CompleteExactlyWhen | src/agent_runtime/safety/output_scanner.py:22-87 | a table each of whose keys contains a safe key or lies inside the marker redacts completely exactly when each contains a safe key |
| ScannerGuarantees.BracketFreeSafety | src/agent_runtime/safety/output_scanner.py:22 | without brackets, marker safety means not lying inside the marker's word |
| ScannerGuarantees.SecretInMarkerSurvives | src/agent_runtime/safety/output_scanner.py:66-87 | a registered secret with an encoding inside the marker survives in every history |
| ScannerGuarantees.ShortSecretSurvives | src/agent_runtime/safety/output_scanner.py:40-49 | the form feed is such a secret, through its unpadded base64 |
| ScannerGuarantees.EncodingsFaithful | src/agent_runtime/safety/output_scanner.py:39-49 | all six machine encodings decode to the secret's bytes, and these to the secret |
| ScannerGuarantees.EncodingsShape | src/agent_runtime/safety/output_scanner.py:39-49 | every machine encoding is strictly longer than a non-empty secret and has no bracket |
| ScannerGuarantees.NineCharactersSuffice | src/agent_runtime/safety/output_scanner.py:34-52 | a bracket-free secret of nine or more characters has marker-safe encodings only |
| ScannerGuarantees.SafeSecretExactly | src/agent_runtime/safety/output_scanner.py:34-52 | any secret is safe exactly when it cannot itself overlap the marker and no encoding of it is inside the marker's word |
| Utf8.EncodeRoundTrip | src/agent_runtime/safety/output_scanner.py:39 | decoding undoes UTF-8 encoding |
| BaseEncodings.Decode64UndoesEncode64 | src/agent_runtime/safety/output_scanner.py:40-47 | base64 in either alphabet, padded or stripped, decodes to the bytes |
| BaseEncodings.DecodeHexUndoesEncodeHex | src/agent_runtime/safety/output_scanner.py:48-49 | hexadecimal in either case decodes to the bytes |
| BaseEncodings.Base64Exactly | src/agent_runtime/safety/output_scanner.py:40-47 | in either alphabet one padded and one unpadded text decode to given bytes, and these are the encodings |
| BaseEncodings.HexExactly | src/agent_runtime/safety/output_scanner.py:48-49 | in either case one text decodes to given bytes, and that is the encoding |
| BaseEncodings.DigitTable | src/agent_runtime/safety/output_scanner.py:40-47 | the base64 digits are those of tables 1 and 2 of RFC 4648 |
| BaseEncodings.HexDigitIsTable | src/agent_runtime/safety/output_scanner.py:48-49 | the hexadecimal digits are those of table 5 of RFC 4648, in either case |
| ScopedStore.ScopedStore.Put | src/agent_runtime/safety/scoped_store.py:60-63 | answer and raw records afterwards are those of the specified step |
| ScopedStore.ScopedStore.Delete | src/agent_runtime/safety/scoped_store.py:65-68 | answer and raw records afterwards are those of the specified step |
| ScopedStore.ScopedStore.Get | src/agent_runtime/safety/scoped_store.py:72-83 | the answer is that of the specified step, the records unchanged |
| ScopedStore.ScopedStore.ListKeys | src/agent_runtime/safety/scoped_store.py:85-97 | the loop's list is that of the specified step, the records unchanged |
| ScopedStore.ScopedStore.Search | src/agent_runtime/safety/scoped_store.py:99-103 | the filtered, redacted hits are those of the specified step, the records unchanged |
| StoreIsolation.PrefixOfWrittenKey | src/agent_runtime/safety/scoped_store.py:39-56 | a written key belongs to the writer's id up to its first colon, which is the writer exactly when it has none |
| StoreIsolation.Noninterference | src/agent_runtime/safety/scoped_store.py:60-103 | removing other tenants' operations from any run changes no answer, from any records, if they write elsewhere |
| StoreIsolation.ColonFreeTenantsIsolated | src/agent_runtime/safety/scoped_store.py:60-103 | this holds for all tenants in a run with colon-free ids |
| StoreIsolation.IsolationExactly | src/agent_runtime/safety/scoped_store.py:39-103 | one tenant can affect another exactly when its id up to a colon is the other's id |
| StoreIsolation.RefinesPrivateStores | src/agent_runtime/safety/scoped_store.py:54-110 | an operation keeps the store consistent, acts as on a private store, and leaves other views alone |
| StoreIsolation.RunRefinesPrivateStores | src/agent_runtime/safety/scoped_store.py:54-110 | in any interleaved run each tenant gets exactly its private store's answers |
| StoreIsolation.ReadYourWrites | src/agent_runtime/safety/scoped_store.py:60-83 | a tenant reads back what it wrote, redacted, and nothing after deleting it |
| StoreHistory.AnswersAreHistory | src/agent_runtime/safety/scoped_store.py:54-83 | after any run of colon-free tenants and kinds a fetch under tenant:kind:name answers with the last write there, redacted, or nothing; a deletion says which; a write answers that key |
| StoreHistory.WriteKeepsOthers | src/agent_runtime/safety/scoped_store.py:54-63 | writing one kind and name leaves what is fetched under any other as it was |
| StoreHistory.TenantOfExactly | src/agent_runtime/safety/scoped_store.py:39-41 | a key is a tenant's exactly when it starts with the id and a colon and the id has none; without a colon it is nobody's |
| StoreHistory.NobodysKey | src/agent_runtime/safety/scoped_store.py:39-75 | nothing can be fetched or deleted under a key without a colon |
| StoreHistory.ListsInOrder | src/agent_runtime/safety/scoped_store.py:85-97 | a listing shows the keys of exactly the own records with the prefix, once each, in record order |
| StoreHistory.ListsOneKind | src/agent_runtime/safety/scoped_store.py:54-97 | in every run a listing by tenant and kind shows exactly its records of that kind, and what follows the prefix is the name |
| StoreHistory.SearchesInOrder | src/agent_runtime/safety/scoped_store.py:99-103 | a search shows exactly the own records with the substring, once each, in record order |
| StoreHistory.PutPlace | scripts/acceptance_selfcheck.py:101-114 | an upsert takes the place of the record with its key, or comes last |
| StoreHistory.DeletePlace | scripts/acceptance_selfcheck.py:101-114 | a deletion takes out one record and closes up, or changes nothing |
| StoreIsolation.CrossTenantDenied | src/agent_runtime/safety/scoped_store.py:60-68 | an operation is refused exactly when it writes or deletes outside the tenant, and then changes nothing |
| StoreIsolation.GetShowsExactly | src/agent_runtime/safety/scoped_store.py:72-83 | a record is shown exactly when prefix and stored tenant are both the caller's |
| StoreIsolation.ListShowsExactly | src/agent_runtime/safety/scoped_store.py:85-97 | with or without a scanner, a listing shows exactly the redacted keys of own records with the prefix |
| StoreIsolation.SearchShowsExactly | src/agent_runtime/safety/scoped_store.py:99-103 | a hit is shown exactly when it is an own record whose raw content has the substring |
| StoreIsolation.FetchedRecordClean | src/agent_runtime/safety/scoped_store.py:117-125 | no safe registered encoding is in the content, and one is in the record exactly when it was in its other fields |
| StoreIsolation.NameIsNotRedacted | src/agent_runtime/safety/scoped_store.py:117-125 | a registered secret in a record's name is shown |
| StoreIsolation.ListedKeysClean | src/agent_runtime/safety/scoped_store.py:96-97 | no safe registered encoding occurs in a listed key |
| StoreIsolation.MatchedRecordsClean | src/agent_runtime/safety/scoped_store.py:99-125 | no safe registered encoding is in the content of a search hit, and one is in the hit exactly when it is in the other fields stored |
| StoreIsolation.StoreThenRegistryScan | src/agent_runtime/safety/scoped_store.py:112-115 | scanning in the store and again in the registry equals one scan |
| Broker.CredentialBroker.constructor | src/agent_runtime/control/broker.py:48-75 | the initial state, and both backing secrets registered on the scanner |
| Broker.CredentialBroker.IssueToolCredential | src/agent_runtime/control/broker.py:79-92 | state and credential are those of the specified issue, and the token is registered |
| Broker.CredentialBroker.IsValidCredential | src/agent_runtime/control/broker.py:94-107 | the answer is the specified validity |
| Broker.CredentialBroker.RevokeCredential | src/agent_runtime/control/broker.py:109-112 | the state is that of the specified revocation |
| Broker.CredentialBroker.UseKey | src/agent_runtime/control/broker.py:116-127 | state and answer are those of the specified key use |
| Broker.CredentialBroker.AllowExternalEffect | src/agent_runtime/control/broker.py:131-141 | state and answer are those of the specified budget check |
| Broker.IssueExactly | src/agent_runtime/control/broker.py:79-107 | a credential carries its time to live and its moment of issue, lives exactly that long unless revoked, and ends only its tenant's earlier ones |
| Broker.SpendingIsLocal | src/agent_runtime/control/broker.py:116-141 | refusals change nothing, grants only one tenant's count in one ledger |
| ControlPlane.DeathIsPermanent | src/agent_runtime/control/broker.py:79-112 | an issued credential found invalid is invalid in every later state of every legal run |
| ControlPlane.AtMostOneValid | src/agent_runtime/control/broker.py:79-107 | a tenant has at most one valid issued credential in every reachable state |
| ControlPlane.ValidityIsHistory | src/agent_runtime/control/broker.py:79-112 | valid exactly if last issued to its tenant, never revoked and not too old, as told from the run alone |
| RunHistory.IssuedIsHistory | src/agent_runtime/control/broker.py:79-92 | the credentials a run hands out, field by field, from its events and the default time to live the broker was made with |
| ControlPlane.ValidityIgnoresSpending | src/agent_runtime/control/broker.py:8-16 | key uses, calls and registrations can be removed from a run without changing any validity |
| RunHistory.KeyLedger | src/agent_runtime/control/broker.py:116-127 | every key use is answered as the history says: a tenant's granted uses are its attempts, cut off at the cap the broker was made with |
| RunHistory.EffectLedger | src/agent_runtime/control/enforcing_registry.py:142-165 | of a tenant's external calls that reach the budget gate the first are granted, up to the cap, or all without one; that is what the broker counts, and executed external calls are among them |
| Egress.ResolvesExactly | src/agent_runtime/control/egress.py:27-45 | which split URLs resolve, and to what, told from the parts |
| Egress.DefaultPortsExplicit | src/agent_runtime/control/egress.py:18-37 | a missing port counts as the scheme's well-known one |
| Egress.UserinfoNeverAllowed | src/agent_runtime/control/egress.py:35-36 | a URL with user information is never allowed and allows nothing |
| Egress.SearchFindsEntry | src/agent_runtime/control/egress.py:62-68 | the search succeeds exactly when some resolved entry covers the target |
| Egress.OnlyResolvedEntriesCount | src/agent_runtime/control/egress.py:54-68 | order, repetition and malformed entries change no decision |
| Egress.MalformedEntriesIgnored | src/agent_runtime/control/egress.py:62-65 | adding malformed entries changes no decision |
| PosixPath.AbsoluteWalk | src/agent_runtime/control/egress.py:40-42 | the component loop is the clamped directory walk, told independently from the right |
| PosixPath.NormPathIsWalk | src/agent_runtime/control/egress.py:40-45 | an absolute path normalises to its kept slashes and the names its walk ends at |
| PosixPath.LeadingSlashes | src/agent_runtime/control/egress.py:42 | exactly two leading slashes stay two, any other number counts as one |
| PosixPath.NormalStays | src/agent_runtime/control/egress.py:42 | normalising a normal path changes nothing |
| Egress.ResolvedPathIsWalk | src/agent_runtime/control/egress.py:40-45 | the path of a split URL resolves to the walk of its decoded segments: names only, and stable under normalisation |
| Egress.WalkedExactly | src/agent_runtime/control/egress.py:40-45 | the walk is that of the raw segments, each decoded alone; only a spelled slash cuts one, and malformed sequences make no ASCII character |
| PercentCoding.UnquoteKeepsSlash | src/agent_runtime/control/egress.py:40-42 | decoding keeps a leading slash |
| PercentCoding.UnquoteAscii | src/agent_runtime/control/egress.py:42 | for every text: the ASCII characters of the decoded text are, in order, those written outside escapes or spelled as escapes below 0x80 |
| PercentCoding.UnquoteAcrossSlash | src/agent_runtime/control/egress.py:42 | what stands on the two sides of a slash is decoded independently |
| Utf8.DecodeStepExactly | src/agent_runtime/control/egress.py:42 | for all bytes: the character whose encoding stands in front, or else one U+FFFD for the longest beginning of one, or for one byte |
| Egress.PathAllowedExactly | src/agent_runtime/control/egress.py:48-51 | the string test holds exactly when slash counts agree and the entry's segments are a prefix, with the two root cases |
| Egress.EgressDecision | src/agent_runtime/control/egress.py:40-68 | the decision, in terms of URL parts and walked segments only |
| Egress.CoversTransitive | src/agent_runtime/control/egress.py:48-68 | coverage is transitive on resolved targets |
| Egress.CoversAntisymmetric | src/agent_runtime/control/egress.py:48-68 | coverage is antisymmetric on resolved targets |
| Egress.RedundantExactly | src/agent_runtime/control/egress.py:54-68 | an entry can be deleted without changing a decision exactly when it is malformed or covered by another |
| PercentCoding.UnquoteUndoesSpelling | src/agent_runtime/control/egress.py:40-42 | every spelling of a text in escapes of either case decodes to the text |
| PercentCoding.UnquoteWithoutPercent | src/agent_runtime/control/egress.py:42 | text without a percent sign is left as it is |
| Egress.SpellingInvariant | src/agent_runtime/control/egress.py:40-45 | two spellings of one path resolve alike and get the same decisions |
| EnforcingRegistry.EnforcingTaskRegistry.constructor | src/agent_runtime/control/enforcing_registry.py:108-114 | a registry starts with its wiring, by default the four external tool names, and an empty log; a guard answers anything or asks the broker |
| EnforcingRegistry.EnforcingTaskRegistry.Register | src/agent_runtime/control/enforcing_registry.py:92-93 | a tool is stored under its name, replacing one of that name, and nothing else changes |
| EnforcingRegistry.EnforcingTaskRegistry.Deny | src/agent_runtime/control/enforcing_registry.py:120-122 | one blocked decision is logged and the generic text returned scanned |
| EnforcingRegistry.EnforcingTaskRegistry.FirstRefusal | src/agent_runtime/control/enforcing_registry.py:124-156 | the gates in order, with the effect on the broker, are those of the specified pipeline |
| EnforcingRegistry.EnforcingTaskRegistry.Execute | src/agent_runtime/control/enforcing_registry.py:158-165 | the tool registered under the name is run once, its outcome logged and its result returned scanned |
| EnforcingRegistry.EnforcingTaskRegistry.Call | src/agent_runtime/control/enforcing_registry.py:124-165 | broker, log, executed calls and returned text are those of the specified dispatch, one decision a call |
| EnforcingRegistry.DispatchMediates | src/agent_runtime/control/enforcing_registry.py:124-165 | the reason is that of the first failing gate, the tool is run exactly if all pass, the budget charged exactly if reached |
| RunHistory.MediationOverRuns | src/agent_runtime/control/enforcing_registry.py:124-165 | over any run one log entry a call: the first failing gate's reason, or what the tool did, with all guards passing at that moment |
| RunHistory.LogIsHistory | src/agent_runtime/control/enforcing_registry.py:124-165 | the whole decision log of every run, and which tools ran, computed from the events alone |
| RunHistory.ReasonsExactly | src/agent_runtime/control/enforcing_registry.py:124-165 | when each gate is the one that refuses and when the tool is run, in terms of credential history, earlier budget tries and the URL |
| RunHistory.GuardedCallsAreValid | src/agent_runtime/control/enforcing_registry.py:138-140 | behind a guard that asks the broker an external call runs only with a valid credential, and a valid one, or no guard, is never refused there; a fixed answer decides alone |
| RunHistory.ExternalToolsAreGuarded | src/agent_runtime/control/enforcing_registry.py:35-38 | the four external tools never run with a dead credential, and the guard stops no other tool |
| ControlPlane.DenialsTellNothing | src/agent_runtime/control/enforcing_registry.py:23-42 | at one scanner state all denials and failures return the scan of one sentence, which names no tool and no reason |
| ControlPlane.CleanResultsUnchanged | src/agent_runtime/control/enforcing_registry.py:164-165 | an allowed result without registered encodings is returned as it is |
| ControlPlane.KnowsAlways | src/agent_runtime/control/broker.py:73-92 | in every run the scanner knows all encodings of the backing secrets and of all tokens issued so far |
| ControlPlane.EndToEnd | src/agent_runtime/control/enforcing_registry.py:120-165 | after any run, no call returns an encoding of a safe model key, backing secret or token, whatever the other secrets are |
| ControlPlane.TokensNeverShown | src/agent_runtime/control/broker.py:79-92 | in no legal run does a call return an encoding of an issued token, whatever the other secrets are |
| ControlPlane.ModelKeySafetyIsExact | src/agent_runtime/control/enforcing_registry.py:120-165 | a model key is safe exactly when no call after any run returns it, beside any backing secret; and exactly when that is so among safe secrets |
| ControlPlane.BackingSafetyIsExact | src/agent_runtime/control/enforcing_registry.py:120-165 | the same for a backing secret, beside any model key |
| ControlPlane.NothingLeaksExactly | src/agent_runtime/control/enforcing_registry.py:120-165 | for any one pair of secrets: no call in any run returns a secret or token exactly when every encoding of the pair has a safe one inside it |
| Deployment.Deployment.constructor | provider.py:51-74 | a new deployment has one scanner and a broker that registered both secrets on it: the start state |
| Deployment.Deployment.TaskRegistry | provider.py:85-92 | a new registry on the shared scanner and broker, with the four external tools of the program |
| Deployment.Deployment.Issue | src/agent_runtime/control/broker.py:79-92 | issuing on the objects is the issue step of the state machine |
| Deployment.Deployment.IsValid | src/agent_runtime/control/broker.py:94-107 | the answer is the validity in the state machine |
| Deployment.Deployment.Revoke | src/agent_runtime/control/broker.py:109-112 | revoking on the objects is the revocation step |
| Deployment.Deployment.UseKey | src/agent_runtime/control/broker.py:116-127 | a key use on the objects is the key use step, with its answer |
| Deployment.Deployment.Teach | src/agent_runtime/safety/output_scanner.py:66-71 | registering on the shared scanner is the teaching step |
| Deployment.Deployment.Call | src/agent_runtime/control/enforcing_registry.py:124-165 | a call on any sharing registry is the call step; what it returns hides every safe secret and, after a legal history, every token |

## Left out

- CompleteExactlyWhen: one fixed table with a key that straddles an end of the marker (such as `a[`) and contains no safe key is not decided: no text may show it as long as another key always breaks it up first. What later registrations bring about is decided (`StaysCompleteExactly`, `PairSafetyIsExact`, `NothingLeaksExactly`).
- StaysCompleteExactly: not for tables that use up all control characters but one; there every possible companion may be broken up by a key. For two values there is no such condition (`PairSafetyIsExact`).
- ClosingBracketSurvives: a secret with a machine encoding of its own inside its doubled text is not decided on that text; it is unsafe all the same (`BracketAtEndUnsafe`).
- Lower-casing of scheme and host, and everything else inside `urlsplit`: URLs start split.
- `_standard_tools`, `names`, `describe`: the tool table maps a name to which function it runs, and what that does is a parameter of the call.
- `PostureRegistry` and `bulletin.py`: a flat field check with a constant fallback.
- `secret_guard.py`, `label_scan.py`, `dependency_guard.py`, `reset.py`: file trees, regular expressions, import machinery.
- `wrap_store` and `posture_registry` of `provider.py`: the first passes the shared scanner to a store view.
- Non-string arguments to `register`, `scan`, keys and URLs, and values that have no UTF-8 encoding.
- The host package `aitw.tools` is not part of this model.
