# Alarm engine: proved model

A Dafny model of the alarm engine in `pkg/alarmd`, and proofs about it. Six parts are modelled.

- **Canonical JSON and digests.** `Bytes`, `Utf8`, `KeyOrder`, `JsonText`, `Json` and `JsonPieces` say what a
  document is, how it is read, sorted and printed. `CanonicalStream` is the single pass itself, over a pooled scratch and
  one arena of spans, keys and values per depth. `Grammar` and `GrammarReading` define RFC 8259 by how a value may be
  spelled and prove that the reader accepts exactly that; `CanonicalForm` and `CanonicalRoundTrip` say when two documents
  share a canonical form and when that form is its own. `Surrogates`, `StrictWalk` and `Established` tie in the
  surrogate check and the slower path: decode, walk the tokens, sort, encode and restore. `Framing`, `RecordId` and `RecordsDigest` are what digests are
  taken over; SHA-256 is any function of the bytes absorbed. `CodePoints`, `FloatRange`, `CanonicalSpelling` and
  `WireForms` pin what these share: characters by number, the float range, the shortest spelling, and bytes written out.
- **Login credentials.** `CredentialStore` is the shared store with one method a script; `CredentialSafety` proves what every
  script keeps, `CredentialDecisions` what each answers and to whom, `CredentialRuns` what holds over whole runs, and
  `CredentialManager` what a renewal buys. Three things are
  taken for granted: names drawn at random are new, not empty and distinct; the clock does not go back; and a
  key set at `n` to live for `p` is gone once `now >= n + p`.
- **Absent alerts.** `AbsentAlerts` is the tracker and one round; `AbsentSafety` and `AbsentGates` prove what a close implies over
  whole runs, `AbsentProgress` when a backlog is worked off, and `AbsentBacklog` the same through the tracker's own memory.
- **Target admission.** `TargetScope` is the matcher with group memberships that may not have been read; `TargetFillings` says
  exactly when it is undecided about a record that is outside, or inside, whatever is read later, and `TargetAnswers` what
  each condition asks and each refusal is called.
- **Slot queries.** `QueryPlanning`, `SeriesDelivery`, `QueryCompletion` and `QueryDispatch` plan a Slot's queries, take
  their series, complete them, and send them in any interleaving; `QueryTimes` and `QueryShares` say who is planned and what
  each binding says.
- **Host index and identity reports.** `HostIndex` and `IdentityReport`.

A class stands where the source has an object that it changes, and each of its methods is proved against a function of
the old state. The laws are then proved of those functions. A parser with a position is tied to a function of what is
left to read.

Six properties one would expect hold only under a condition, which is stated and proved exactly:

- The canonical form of bytes that are not valid UTF-8 may be refused, because two keys may become one when invalid
  bytes are replaced: `CanonicalRoundTrip.NotAlwaysStable`, `CanonicalRoundTrip.FixedPointExactly`. Payloads that reach the digests
  are checked to be valid UTF-8 first, and for these `CanonicalRoundTrip.FixedPoint` has no such condition.
- A record outside whatever its unread groups hold may still be refused as undecided, with or without an exclusion:
  `TargetFillings.UndecidedExactly`, `TargetFillings.ExcludedButUndecided`, `TargetFillings.IncludedButUndecided`.
- A record inside whatever they hold may still be refused: `TargetFillings.InsideButRefusedExactly`,
  `TargetFillings.CoveredButRefused`.
- Feeding the last key closed back works a backlog off in ceil(e/m) rounds unless the key with neither tenant nor strategy
  is in it, the bound is below its size and divides it: `AbsentProgress.BacklogIsWorkedOff`, `AbsentProgress.OneMissed`,
  `AbsentBacklog.NeverClosed`.
- The shared records digest and the generic one differ where a series is nested so deep, or its domain is so
  long, that only the shared form can encode it: `RecordsDigest.DeriveSeriesRecordsDigestV2`, `RecordsDigest.DeepSeriesDiffers`.
- Ending queries with a spent budget binds every pair only because a recovery sets no consumer aside:
  `QueryCompletion.BudgetConservesExactly`.

## Model

| member | source | states |
|---|---|---|
| GrammarReading.ReadsTheGrammar | pkg/alarmd/contract/v2_canonical_stream.go:59-357 | The parser accepts a text exactly when the RFC 8259 grammar derives that text from some acceptable value (nesting, distinct decoded keys, numbers kept exactly), and then it reads that value; the grammar is defined by spelling, not by parsing. |
| CanonicalRoundTrip.FixedPoint | pkg/alarmd/contract/v2_canonical_stream.go:270-509 | The canonical form of a valid UTF-8 document is accepted, reads as the sorted value, and is its own canonical form. |
| CanonicalRoundTrip.FixedPointExactly | pkg/alarmd/contract/v2_canonical_stream.go:270-509 | For any accepted bytes, valid UTF-8 or not: the canonical form is accepted again and stable if and only if every object has strictly ascending keys once invalid bytes are replaced by U+FFFD. |
| CanonicalRoundTrip.NotAlwaysStable | pkg/alarmd/contract/v2_canonical_stream.go:462-509 | Without valid UTF-8 the fixed point fails: a concrete accepted object whose two keys differ only in invalid bytes has a canonical form that is refused as a repeated key. |
| CanonicalRoundTrip.OneFormPerValue | pkg/alarmd/contract/v2_canonical_stream.go:59-357 | Two valid UTF-8 documents get identical bytes if and only if their values differ in member order alone, so spacing, escape spelling and key order never show and nothing else is lost. |
| CanonicalStream.Pool.CanonicalStreamV2 | pkg/alarmd/contract/v2_canonical_stream.go:59-83 | Over pooled storage left in any state by earlier calls: accepts exactly the documents the parser accepts and appends the canonical form of the value read. |
| CanonicalStream.CanonicalStream.Document | pkg/alarmd/contract/v2_canonical_stream.go:59-83 | Reading a whole source in place accepts exactly when the parser does and appends the sorted print of the value it reads. |
| CanonicalStream.CanonicalStream.Value | pkg/alarmd/contract/v2_canonical_stream.go:125-149 | One value is consumed as the parser consumes it and its canonical form appended; storage of shallower levels is outside its modifies clause, so an outer object's spans survive every nested call. |
| CanonicalStream.CanonicalStream.ArrayValue | pkg/alarmd/contract/v2_canonical_stream.go:223-263 | An array keeps its item order, with each item in canonical form. |
| CanonicalStream.CanonicalStream.Items | pkg/alarmd/contract/v2_canonical_stream.go:223-263 | The items up to the closing bracket are those the parser reads, printed in order with single commas. |
| CanonicalStream.CanonicalStream.ObjectValue | pkg/alarmd/contract/v2_canonical_stream.go:270-357 | An object is refused exactly when the parser refuses it or a decoded key repeats, and otherwise printed with its keys in ascending byte order. |
| CanonicalStream.CanonicalStream.OneMember | pkg/alarmd/contract/v2_canonical_stream.go:270-340 | After one member the level's spans and arenas hold all earlier members unchanged followed by the new key and canonical value. |
| CanonicalStream.CanonicalStream.Members | pkg/alarmd/contract/v2_canonical_stream.go:270-340 | At the closing brace the level holds every member read, in order, whatever nested objects did to deeper levels. |
| CanonicalStream.CanonicalStream.KeyAndColon | pkg/alarmd/contract/v2_canonical_stream.go:285-315 | A key is decoded onto the end of the key arena, and the reader stands on the value after the colon. |
| CanonicalStream.CanonicalStream.Emit | pkg/alarmd/contract/v2_canonical_stream.go:318-357 | Sorting the spans and scanning neighbours refuses exactly the objects with a repeated decoded key anywhere, and prints the others as the canonical object. |
| CanonicalStream.CanonicalStream.InDeeper | pkg/alarmd/contract/v2_canonical_stream.go:270-300 | The storage of a level is apart from that of all deeper levels and from its destination, and the deeper footprint shrinks with depth. |
| CanonicalStream.CanonicalStream.SkipSpaces | pkg/alarmd/contract/v2_canonical_stream.go:114-123 | Exactly the leading JSON white space is passed. |
| CanonicalStream.CanonicalStream.Word | pkg/alarmd/contract/v2_canonical_stream.go:151-160 | A literal name is accepted only in full and copied as it is. |
| CanonicalStream.CanonicalStream.Number | pkg/alarmd/contract/v2_canonical_stream.go:162-221 | A number is accepted by the RFC 8259 section 6 grammar and, when it has a fraction or an exponent, only if it is finite as a float64; its token is kept byte for byte. |
| CanonicalStream.CanonicalStream.NumberToken | pkg/alarmd/contract/v2_canonical_stream.go:162-205 | The position moves past exactly the longest number token, and a token with a fraction or an exponent is flagged. |
| CanonicalStream.CanonicalStream.StrInto | pkg/alarmd/contract/v2_canonical_stream.go:372-444 | A string is decoded as RFC 8259 section 7 decodes it, onto the end of the destination; raw control characters, unknown escapes and lone surrogates are refused. |
| CanonicalStream.CanonicalStream.Escape | pkg/alarmd/contract/v2_canonical_stream.go:395-435 | One escape decodes to its character, a surrogate pair to one code point. |
| CanonicalStream.CanonicalStream.Str | pkg/alarmd/contract/v2_canonical_stream.go:362-370 | A string value's decoded text replaces the scratch. |
| CanonicalStream.AppendCanonicalString | pkg/alarmd/contract/v2_canonical_stream.go:462-509 | The batched writer emits each character's escape or the character itself, and U+FFFD for each invalid byte. |
| CanonicalStream.OneChar | pkg/alarmd/contract/v2_canonical_stream.go:475-505 | One character's width and whether it is copied as it is; copied only if its canonical form is itself. |
| CanonicalStream.SortSpans | pkg/alarmd/contract/v2_canonical_stream.go:325-335 | The reordered spans hold a permutation of the members in which no key is above a later one. |
| CanonicalStream.HoldsAppended | pkg/alarmd/contract/v2_canonical_stream.go:285-325 | Growing an arena at its end leaves every member its earlier spans hold as it was. |
| CanonicalStream.SortedApart | pkg/alarmd/contract/v2_canonical_stream.go:318-345 | In any ascending arrangement, no two neighbours share a key if and only if no two members do, and then the arrangement is the sorted list. |
| KeyOrder.SortAscends | pkg/alarmd/contract/v2_canonical_stream.go:325-335 | Distinct keys sort into strictly ascending byte order. |
| KeyOrder.SortPermutes | pkg/alarmd/contract/v2_canonical_stream.go:325-335 | Sorting loses and repeats no member. |
| KeyOrder.AscendingUnique | pkg/alarmd/contract/v2_canonical_stream.go:325-335 | Two strictly ascending lists with the same members are equal, so the sorted object does not depend on the sorting algorithm. |
| KeyOrder.AscendingIsSorted | pkg/alarmd/contract/v2_canonical_stream.go:325-335 | Any ascending permutation keeps key distinctness and, when keys are distinct, is the sorted list. |
| KeyOrder.RepeatIsAdjacent | pkg/alarmd/contract/v2_canonical_stream.go:335-345 | In ascending order a repeated key anywhere is a repeated key side by side, so comparing neighbours finds every duplicate. |
| Bytes.LessTransitive | pkg/alarmd/contract/v2_canonical_stream.go:325-335 | Byte order is transitive. |
| Bytes.LessTotal | pkg/alarmd/contract/v2_canonical_stream.go:325-335 | Byte order is total, asymmetric and irreflexive. |
| GrammarReading.TreeRead | pkg/alarmd/contract/v2_canonical_stream.go:125-357 | However a value is spelled (spaces, escapes, number tokens), the parser reads exactly that value and stops where the text ends. |
| GrammarReading.SpellTree | pkg/alarmd/contract/v2_canonical_stream.go:125-357 | Whatever the parser accepted is a text of the grammar: a derivation with that text and that value exists. |
| GrammarReading.DocumentRead | pkg/alarmd/contract/v2_canonical_stream.go:59-83 | Every spelling of an acceptable document is accepted as its value, with nothing left over. |
| CanonicalForm.SameIffNormal | pkg/alarmd/contract/v2_canonical_stream.go:270-357 | Values with distinct keys have one sorted form if and only if they are equal up to member order at every depth. |
| CanonicalForm.NormalTwice | pkg/alarmd/contract/v2_canonical_stream.go:270-357 | Sorting a sorted value changes nothing. |
| CanonicalRoundTrip.PrintedReads | pkg/alarmd/contract/v2_canonical_stream.go:59-509 | Printing then parsing gives the value back, for every value with valid UTF-8 texts, grammatical tokens and acceptable nesting and keys. |
| CanonicalRoundTrip.StrictIsLenient | pkg/alarmd/contract/v2_canonical_stream.go:162-221 | What is accepted under the single pass's number rule is read alike when the finite-number rule is dropped. |
| CanonicalRoundTrip.SourceValid | pkg/alarmd/contract/v2_canonical_stream.go:372-444 | From a source that is valid UTF-8 only valid UTF-8 texts are decoded, surrogate pairs included. |
| CanonicalRoundTrip.RepairPrints | pkg/alarmd/contract/v2_canonical_stream.go:462-509 | A string and its U+FFFD-repaired form print alike. |
| CanonicalRoundTrip.RepairValid | pkg/alarmd/contract/v2_canonical_stream.go:462-509 | A repaired string is valid UTF-8. |
| CanonicalRoundTrip.WriteTree | pkg/alarmd/contract/v2_canonical_stream.go:446-509 | What is printed is a text of the RFC 8259 grammar spelling that very value. |
| CanonicalStream.DecodeHexQuad | pkg/alarmd/contract/schema.go:127-146 | Four hexadecimal digits of either case are read as their number, and anything else is refused. |
| Surrogates.ValidateJSONSurrogateEscapes | pkg/alarmd/contract/schema.go:87-125 | The index loop over the payload decides the same as scanning inside and outside of strings by recursion. |
| Surrogates.InsideAgrees | pkg/alarmd/contract/schema.go:92-125 | Inside a string both scanners end at the same closing quote, and what the check passes the decoder never finds an unpaired surrogate in. |
| Surrogates.SurrogatesAgree | pkg/alarmd/contract/schema.go:87-125 | A payload the check passes is never refused in the parser's surrogate branch, and every document the parser accepts passes the check. |
| Established.RestoreJSONLineSeparatorsV2 | pkg/alarmd/contract/v2_canonical.go:137-167 | The pass over backslash runs gives what undoing the separator escapes one escape at a time gives. |
| Established.RestoreRun | pkg/alarmd/contract/v2_canonical.go:144-165 | A run of n backslashes before "u2028" or "u2029" is a separator escape if and only if n is odd, and only its last backslash belongs to it. |
| Established.CharsRestored | pkg/alarmd/contract/v2_canonical.go:137-167 | For every valid UTF-8 text, undoing the separator escapes on the Go-style encoding gives the single pass's spelling, texts that hold literal backslash runs before "u2028" included. |
| Established.ValueRestored | pkg/alarmd/contract/v2_canonical.go:108-131 | The same for a whole value: encoded and restored, it is the print the single pass gives. |
| Established.DeeperLimit | pkg/alarmd/contract/v2_canonical.go:59-99 | A document accepted under one nesting limit is accepted and read alike under any deeper one. |
| Established.EstablishedIsCanonical | pkg/alarmd/contract/v2_canonical.go:108-131 | On valid UTF-8 the decode-walk-sort-encode-restore path, its decoder the grammar and its strictness the token walk, answers the canonical form of exactly the documents the strict rules accept within its limit. |
| Established.DecodedIs | pkg/alarmd/contract/v2_canonical.go:108-125 | The standard decoder, taken as the RFC 8259 grammar with number tokens kept, reads each text as at most one value, the one a lenient reader reads. |
| Established.WalkIsStrict | pkg/alarmd/contract/v2_canonical.go:108-125 | Decoding leniently and then walking the tokens accepts the same documents, with the same values, as the strict rules of the single pass: repeated keys and numbers past the float range are refused alike. |
| Established.Establish | pkg/alarmd/contract/v2_canonical.go:108-131 | Decode, walk, sort, encode and restore in turn answer as the established path is defined. |
| StrictWalk.WalkJSONValue | pkg/alarmd/contract/schema.go:207-260 | Walking one value takes just its tokens and accepts it if and only if no object in it repeats a decoded key and no number with a fraction or exponent is past the float range. |
| StrictWalk.WalkMembers | pkg/alarmd/contract/schema.go:223-245 | The walk through an object finds a repeated key by its set of seen keys exactly when there is one. |
| StrictWalk.WalkItems | pkg/alarmd/contract/schema.go:246-255 | The walk through an array accepts exactly when each item does. |
| StrictWalk.RejectDuplicateJSONFields | pkg/alarmd/contract/schema.go:198-205 | A whole document passes exactly when it is strict at every depth. |
| StrictWalk.StrictlyAcceptable | pkg/alarmd/contract/schema.go:198-260 | A value is acceptable to the strict rules if and only if it is to the lenient ones and passes the walk. |
| Established.CanonicalJSONV2 | pkg/alarmd/contract/v2_canonical.go:31-55 | Trying the single pass first changes no answer: for every admitted payload the result, or refusal, is that of the established path alone. |
| Framing.BigEndianInjective | pkg/alarmd/contract/v2_canonical.go:225-243 | Two lengths written on as many bytes alike are equal. |
| Framing.FrameConcat | pkg/alarmd/contract/v2_canonical.go:225-243 | Framing fields one after another frames the joined list, so a saved prefix can be continued. |
| Framing.FrameInjective | pkg/alarmd/contract/v2_canonical.go:225-243 | Different lists of fields below 2^32 bytes are never framed to the same bytes. |
| Framing.DecimalInjective | pkg/alarmd/contract/v2_canonical.go:377-387 | Different integers, negative ones included, are written differently in decimal. |
| Framing.RunningHash.Write | pkg/alarmd/contract/v2_canonical.go:406-450 | A hash absorbs what it is given after what it had. |
| RecordId.RecordBytesExactly | pkg/alarmd/contract/v2_canonical.go:377-387 | An id exists exactly for a series that is a digest and a time that is not negative, and is taken over the framed version, series and decimal time. |
| RecordId.RecordBytesInjective | pkg/alarmd/contract/v2_canonical.go:377-387 | Ids of different series or times are never taken over the same bytes. |
| RecordId.RecordIDDeriverV2.constructor | pkg/alarmd/contract/v2_canonical.go:418-435 | The saved hash state is that of the framed version and series. |
| RecordId.RecordIDDeriverV2.Derive | pkg/alarmd/contract/v2_canonical.go:437-450 | After any history of calls the answer, or refusal, is that of deriving the id from nothing. |
| RecordsDigest.DeriveSeriesRecordsDigestV2 | pkg/alarmd/contract/v2_records_digest.go:55-75 | Wherever the generic digest exists the result is that digest. Where it does not, an unsampled call answers exactly when only the shared form can encode the series, and a sampled one reports that difference and refuses. |
| RecordsDigest.DeriveSharedRecordsDigest | pkg/alarmd/contract/v2_records_digest.go:83-168 | The bytes hashed piecewise are the domain framed, then the 32-bit length and the canonical document of the whole list; it declines exactly when the records do not share, a part does not encode, or the length does not fit. |
| RecordsDigest.DocumentInPieces | pkg/alarmd/contract/v2_records_digest.go:95-168 | The canonical document of records that share is the brackets around shared prefix and varying suffixes, with one comma between. |
| RecordsDigest.RecordCanonical | pkg/alarmd/contract/v2_records_digest.go:95-150 | Sorted by key, a record's canonical object is the shared prefix followed by that record's id, source time and values. |
| RecordsDigest.IdentityCanonical | pkg/alarmd/contract/v2_records_digest.go:177-188 | The written-out dimension identity is the canonical form of the identity object. |
| RecordsDigest.DimensionIdentityPart | pkg/alarmd/contract/v2_records_digest.go:177-188 | Reusing the already encoded fields gives the same part as encoding the identity anew. |
| RecordsDigest.OneSeries | pkg/alarmd/contract/v2_records_digest.go:83-100 | The fast form is taken exactly when there are records and all of them share business, identity, fields, dimensions and received time and have no collection time. |
| RecordsDigest.WriteVarying | pkg/alarmd/contract/v2_records_digest.go:115-140 | The one buffer holds the suffixes in order and the ends array says where each stops. |
| RecordsDigest.FeedRecords | pkg/alarmd/contract/v2_records_digest.go:150-168 | Cutting the buffer at its ends and hashing prefix and piece by turns absorbs the joined records. |
| RecordsDigest.FeedSeries | pkg/alarmd/contract/v2_records_digest.go:140-168 | The running hash absorbs the framed domain, the length, and the bracketed records. |
| RecordsDigest.ListAcceptable | pkg/alarmd/contract/v2_records_digest.go:55-75 | The whole list encodes if and only if each record's parts do, each at its own depth in the list. |
| RecordsDigest.PrintValid | pkg/alarmd/contract/v2_records_digest.go:83-168 | What is printed of valid texts is valid UTF-8. |
| RecordsDigest.GenericExactly | pkg/alarmd/contract/v2_records_digest.go:55-75 | The generic digest exists exactly for a valid domain below 2^32 bytes and a list that nests within the limit and is below 2^32 bytes, and absorbs its framed canonical document. |
| RecordsDigest.NestedPartsEncode | pkg/alarmd/contract/v2_records_digest.go:83-168 | Parts that encode inside the list encode on their own, so the shared form never declines a series the generic form takes. |
| RecordsDigest.DeepSeriesDiffers | pkg/alarmd/contract/v2_records_digest.go:55-168 | A concrete series nested to the limit: the shared form digests it and the generic form refuses it. |
| CredentialSafety.IndexIsPairings | pkg/alarmd/cliauth/scripts.go:53-196 | At the end of every run from the empty store: an id counts in the index if and only if a usable credential of the current epoch holds it, at a score equal to its last use; each id has one credential; the index never exceeds the cap. |
| CredentialSafety.RunKeeps | pkg/alarmd/cliauth/scripts.go:10-205 | The invariant tying index, pairings, spent answers, sessions and grants holds after every admissible run. |
| CredentialSafety.StepKeeps | pkg/alarmd/cliauth/scripts.go:10-205 | Every script keeps it. |
| CredentialSafety.IssueKeeps | pkg/alarmd/cliauth/scripts.go:10-24 | Issuing a grant keeps the invariant. |
| CredentialSafety.ExchangeKeeps | pkg/alarmd/cliauth/scripts.go:26-76 | Exchanging a grant keeps the invariant; a pairing is added only below the cap. |
| CredentialSafety.UseSessionKeeps | pkg/alarmd/cliauth/scripts.go:78-102 | Reading, renewing or ending a session keeps the invariant. |
| CredentialSafety.RefreshKeeps | pkg/alarmd/cliauth/scripts.go:112-147 | A refresh keeps the invariant: the id moves to its new credential, the old one is only spent. |
| CredentialSafety.UpgradeKeeps | pkg/alarmd/cliauth/scripts.go:153-176 | An upgrade keeps the invariant. |
| CredentialSafety.ForgetKeeps | pkg/alarmd/cliauth/scripts.go:179-187 | Giving a credential up keeps the invariant. |
| CredentialSafety.RevokeAllKeeps | pkg/alarmd/cliauth/scripts.go:191-196 | A revocation keeps the invariant. |
| CredentialSafety.ActiveKeeps | pkg/alarmd/cliauth/scripts.go:199-205 | Counting keeps the invariant. |
| CredentialSafety.RefreshNeverGrows | pkg/alarmd/cliauth/scripts.go:112-147 | A refresh never makes the index larger, whatever it answers. |
| CredentialSafety.ActiveCounts | pkg/alarmd/cliauth/scripts.go:199-205 | The number reported as active is the number of usable credentials. |
| CredentialSafety.DeadlinesAgree | pkg/alarmd/cliauth/scripts.go:10-147 | A live key's own record is within its stated expiry, and a pairing is live exactly while it is within the idle lifetime of its last use. |
| CredentialSafety.ChallengeDecides | pkg/alarmd/cliauth/scripts.go:26-76 | An exchange onto a fresh session name opens one if and only if its grant stands and the challenge derived from the verifier equals the grant's (RFC 7636 section 4.6), an unbound grant refuses any verifier as not bound, and every refusal leaves the store alone. |
| CredentialRuns.GrantIsSingleUse | pkg/alarmd/cliauth/scripts.go:26-76 | Once exchanged, a grant is refused after any further steps. |
| CredentialRuns.NeverBack | pkg/alarmd/cliauth/scripts.go:10-205 | A name that was drawn and is absent from grants, sessions, pairings or answers stays absent for the rest of any run. |
| CredentialRuns.SpentOnce | pkg/alarmd/cliauth/scripts.go:112-147 | After a renewal and any further steps, the spent credential renews nothing: within the grace it gets the first answer, later it is refused, and the store does not change. |
| CredentialRuns.RepeatedRenewal | pkg/alarmd/cliauth/pairing.go:311-328 | Within the grace, unless the session was ended or everything revoked in between, the session named in the answer is still found, with the id and pairing of the first renewal, and the store does not change. |
| CredentialRuns.EndedSessionRefused | pkg/alarmd/cliauth/scripts.go:78-102 | An ended session is refused, for an upgrade too, after any further steps. |
| CredentialRuns.ForgottenRefused | pkg/alarmd/cliauth/scripts.go:179-187 | A credential given up is refused after any further steps. |
| CredentialRuns.RunStale | pkg/alarmd/cliauth/scripts.go:10-205 | Once stale, names stay stale through every run: no step makes a record of a later epoch out of an earlier one. |
| CredentialRuns.StaleRefused | pkg/alarmd/cliauth/scripts.go:38-163 | A call offering a stale name is refused, or is given only the spent answer that names a stale session. |
| CredentialRuns.RevokedForGood | pkg/alarmd/cliauth/scripts.go:191-196 | No grant, session, pairing or upgrade of before a revocation is accepted by any later step of any run, nor is the session a spent answer of before it names. |
| CredentialManager.SameRenewal | pkg/alarmd/cliauth/pairing.go:134-181 | A renewal asked again within the grace buys the same access and refresh tokens for the same session and pairing and changes nothing itself, whatever others did before it and between its script and its session read, short of a revocation or the session's end. |
| CredentialManager.RevokedRenewalBuysNothing | pkg/alarmd/cliauth/pairing.go:134-181 | A credential of before a revocation buys nothing after it, by renewal or by repeating one, whatever others do between the script and the session read. |
| CredentialManager.Manager.Refresh | pkg/alarmd/cliauth/pairing.go:134-181 | Script, sealed answer and session read, with any calls of others between them, answer as the renewal over the abstract state does. |
| CredentialManager.Manager.Replay | pkg/alarmd/cliauth/pairing.go:311-328 | Only a sealed answer this credential opens is used, and its tokens are given only if the session it names still stands. |
| CredentialStore.Store.Issue | pkg/alarmd/cliauth/scripts.go:10-24 | The script takes the store to the issuing step's state and reply. |
| CredentialStore.Store.Exchange | pkg/alarmd/cliauth/scripts.go:26-76 | The script, check by check, is the exchange step. |
| CredentialStore.Store.UseSession | pkg/alarmd/cliauth/scripts.go:78-102 | The script is the read, renew or end step of the session. |
| CredentialStore.Store.Refresh | pkg/alarmd/cliauth/scripts.go:112-147 | The script is the refresh step, replay, drop and roll included. |
| CredentialStore.Store.Upgrade | pkg/alarmd/cliauth/scripts.go:153-176 | The script is the upgrade step. |
| CredentialStore.Store.Forget | pkg/alarmd/cliauth/scripts.go:179-187 | The script is the step that gives a credential up. |
| CredentialStore.Store.RevokeAll | pkg/alarmd/cliauth/scripts.go:191-196 | The script is the revocation step: the epoch is raised and the index emptied. |
| CredentialStore.Store.Active | pkg/alarmd/cliauth/scripts.go:199-205 | The script is the counting step. |
| AbsentSafety.CloseIsEarned | pkg/alarmd/absentalerts/difference.go:298-379 | Over every run of rounds and forgets, a close of a key implies an earlier accepted round at least the grace before and under another observation, whose sighting is the one remembered, with the key a candidate in every accepted round since and no forget between. |
| AbsentSafety.MemoryIsTrue | pkg/alarmd/absentalerts/tracker.go:42-125 | In every run the memory is within its bound, and each entry is the time and observation of the accepted round from which its key has been a candidate ever since. |
| AbsentSafety.NotedExactly | pkg/alarmd/absentalerts/tracker.go:42-73 | Noting keeps an entry exactly for candidates, an earlier one unchanged, never above the bound, and counts as dropped exactly the candidates left out. |
| AbsentSafety.RefusedAreCounted | pkg/alarmd/absentalerts/tracker.go:55-73 | The dropped count is the number of keys not admitted, and a key is dropped only when the memory is full. |
| AbsentSafety.RefusedRoundsAgeNothing | pkg/alarmd/absentalerts/tracker.go:114-125 | A refused round leaves the memory unchanged and decides nothing. |
| AbsentSafety.FirstRoundClosesNothing | pkg/alarmd/absentalerts/tracker.go:103-107 | The first round after a forget closes nothing. |
| AbsentSafety.CountsAddUp | pkg/alarmd/absentalerts/difference.go:346-379 | Every candidate is decided exactly once, in order, so the four outcome counts sum to the number of candidates. |
| AbsentProgress.BacklogIsWorkedOff | pkg/alarmd/absentalerts/difference.go:346-401 | With a stable backlog of e closable keys and bound m > 0, feeding back the last key closed closes all of them within ceil(e/m) rounds from every start, if and only if it is not the case that the empty key is in the backlog, m < e and m divides e. |
| AbsentProgress.ClosedIffCovered | pkg/alarmd/absentalerts/difference.go:346-401 | A key of the backlog is closed within the rounds exactly when its place is in one of the blocks of m places the feedback walks. |
| AbsentProgress.ReadyWalk | pkg/alarmd/absentalerts/difference.go:361-390 | The ready keys of a rotated walk are the ready keys rotated the same way, so keys that are not ready never cost a ready one its turn. |
| AbsentProgress.AllCovered | pkg/alarmd/absentalerts/difference.go:346-390 | Blocks of m places cover all e within ceil(e/m) rounds, the lucky case. |
| AbsentBacklog.AbsentAreClosed | pkg/alarmd/absentalerts/tracker.go:42-125 | Through the tracker from an empty memory: strategies that stay absent and fit the memory are all closed within ceil(e/m) rounds from the first a grace later under another observation, whatever rounds waited or refused before and wherever the last close left off, with the one exception of a backlog. |
| AbsentBacklog.TrackedIsStable | pkg/alarmd/absentalerts/tracker.go:114-125 | Once the memory holds just the candidates and the grace is past, the rounds the tracker decides close what rounds on one fixed memory close. |
| AbsentBacklog.MemoryStays | pkg/alarmd/absentalerts/tracker.go:42-73 | Rounds that find the same candidates, and refused ones, leave a memory of those candidates unchanged, so no first sighting moves. |
| AbsentBacklog.NotedFirst | pkg/alarmd/absentalerts/tracker.go:42-73 | An empty memory with room remembers every candidate of its first round, first missing then and under that observation. |
| AbsentBacklog.NeverClosed | pkg/alarmd/absentalerts/difference.go:346-401 | A concrete unlucky backlog: two keys, one with neither tenant nor strategy, at one a round, are stable for any number of rounds and the other key is never closed. |
| AbsentProgress.OneMissed | pkg/alarmd/absentalerts/difference.go:385-401 | In the unlucky case some start leaves some key out: a block that ends at the empty key restarts the walk, as no key is above none. |
| AbsentAlerts.KeysTotal | pkg/alarmd/absentalerts/difference.go:396-401 | Keys are totally ordered and none is below the empty key. |
| AbsentAlerts.KeysTransitive | pkg/alarmd/absentalerts/difference.go:396-401 | The order is transitive. |
| AbsentAlerts.SortLists | pkg/alarmd/absentalerts/difference.go:320-333 | Sorting distinct keys lists exactly them, strictly ascending. |
| AbsentAlerts.OneListing | pkg/alarmd/absentalerts/difference.go:320-333 | Two ascending listings of the same keys are equal, so the walk does not depend on map order. |
| AbsentAlerts.StrategyIDs | pkg/alarmd/absentalerts/difference.go:335-341 | The strategies listed are exactly those of some key. |
| AbsentAlerts.Candidates | pkg/alarmd/absentalerts/difference.go:298-333 | Unless the round is refused, the candidates are exactly the linked keys that the snapshot does not list, in order, once each; a refused round has none, and the counts are those of the links. |
| AbsentAlerts.SearchAbove | pkg/alarmd/absentalerts/difference.go:385-390 | The search finds the number of keys not above the one closed last. |
| AbsentAlerts.RotationOf | pkg/alarmd/absentalerts/difference.go:385-390 | The walk starts at the first key above the one closed last, or at the front when there is none. |
| AbsentAlerts.StepChoice | pkg/alarmd/absentalerts/difference.go:361-379 | Deciding key by key under the bound closes exactly the first m ready keys of the walk, each ready key beyond them deferred. |
| AbsentAlerts.DecideOne | pkg/alarmd/absentalerts/difference.go:361-379 | One step of the walk gives the key the outcome the whole round gives it and adds it to the closes exactly when it is chosen. |
| AbsentAlerts.WalkAll | pkg/alarmd/absentalerts/difference.go:361-379 | The walk visits each candidate once and closes the chosen ones. |
| AbsentAlerts.Compute | pkg/alarmd/absentalerts/difference.go:346-379 | The round's result, refusals included, is the one stated of candidates, memory, grace and bound. |
| AbsentAlerts.TalliesAddUp | pkg/alarmd/absentalerts/difference.go:346-379 | The four outcomes share out all decisions. |
| AbsentAlerts.Tracker.Note | pkg/alarmd/absentalerts/tracker.go:42-73 | The map holds afterwards what noting the candidates in order leaves, and the dropped counter grows by those refused. |
| AbsentAlerts.Tracker.KeepOnly | pkg/alarmd/absentalerts/tracker.go:45-55 | Exactly the entries of candidates are kept. |
| AbsentAlerts.Tracker.Absences | pkg/alarmd/absentalerts/tracker.go:76-84 | The answer is the whole memory. |
| AbsentAlerts.Tracker.Forget | pkg/alarmd/absentalerts/tracker.go:103-107 | Nothing is remembered any more, and the dropped counter stays. |
| AbsentAlerts.Tracker.Round | pkg/alarmd/absentalerts/tracker.go:114-125 | A round is decided on the memory it itself has noted; memory, dropped count and result are those of one step of the run. |
| TargetScope.AdmittedIsInside | pkg/alarmd/admission/target_scope.go:147-190 | With host facts available, a record admitted on the groups read is inside the target under every filling of those that were not. |
| TargetScope.RefusedIsOutside | pkg/alarmd/admission/target_scope.go:147-264 | A record refused for any reason but an unread group is outside the target under every filling. |
| TargetScope.AllReadIsPlain | pkg/alarmd/admission/target_scope.go:147-328 | With every group read the answer is membership in the plain OR of ANDs with the table's absence rules, and no unread group is named. |
| TargetScope.DefinitiveIsOutside | pkg/alarmd/admission/definitive.go:42-121 | A rejection that stands as definitive was decided on facts that were read about a placed host, and is outside under every filling. |
| TargetScope.UnreadFactsDecideNothing | pkg/alarmd/admission/definitive.go:42-121 | Facts that could not be consulted admit under any target and never make a definitive rejection. |
| TargetFillings.UndecidedExactly | pkg/alarmd/admission/target_scope.go:147-328 | A record is outside under every filling of the unread groups and refused as undecided all the same if and only if no group of conditions can hold under any filling and some group stopped at one that was not read. |
| TargetFillings.CanHoldExactly | pkg/alarmd/admission/target_scope.go:266-328 | A group of conditions can hold, by a check of facts and lookup alone, if and only if some filling of the unread groups makes it hold: each condition holds of what was read, none excludes a group known to have the record, and each dynamic one has it or names an unread group the same alternative does not exclude. |
| TargetFillings.OutsideExactly | pkg/alarmd/admission/target_scope.go:147-328 | A record is outside under every filling if and only if no group of conditions can hold. |
| TargetFillings.ExcludedButUndecided | pkg/alarmd/admission/target_scope.go:266-328 | A witness by exclusion: a host known to be in an excluded group is outside under every filling and still refused as undecided, because that condition names an unread group too. |
| TargetFillings.IncludedButUndecided | pkg/alarmd/admission/target_scope.go:266-328 | A witness with no exclusion: a host another condition of the group surely shuts out is still refused as undecided when an unread group asked for comes first. |
| TargetFillings.InsideButRefusedExactly | pkg/alarmd/admission/target_scope.go:147-328 | A record is inside under every filling and refused all the same if and only if every group fails on what was read and yet each choice of the unread groups that hold the record puts it in some group. |
| TargetFillings.InsideExactly | pkg/alarmd/admission/target_scope.go:147-328 | A record is inside under every filling if and only if it is under each of the finitely many choices of the unread groups named that hold it. |
| TargetFillings.OnlyJoined | pkg/alarmd/admission/target_scope.go:266-328 | Being in the target depends on a filling only through which unread groups hold the record. |
| TargetFillings.CoveredButRefused | pkg/alarmd/admission/target_scope.go:266-328 | A witness: two alternatives that ask for and exclude one unread group hold of every host between them, and the host is refused as undecided. |
| TargetScope.VerdictSound | pkg/alarmd/admission/target_scope.go:266-328 | Trying one group: a match holds under every filling, a decided failure fails under every filling, and with all its groups read no failure is undecided. |
| TargetScope.OneKindOneName | pkg/alarmd/admission/target_scope.go:242-264 | Failures of one kind bear one reason, so naming the last names them all. |
| TargetScope.WithGroupMemberships | pkg/alarmd/admission/target_scope.go:67-99 | Each dynamic group condition gains exactly the members of its groups that were read, and is marked unknown exactly when one was not. |
| TargetScope.ReadGroups | pkg/alarmd/admission/target_scope.go:75-95 | The keys are the union of the members read, unknown if and only if some group is missing or unusable. |
| TargetScope.MatchTrace.Fail | pkg/alarmd/admission/target_scope.go:224-234 | The trace keeps the last failure, and is uniform as long as field, sense and absence have been the same in all. |
| TargetScope.MatchTrace.Reason | pkg/alarmd/admission/target_scope.go:242-264 | An undecided failure is named for its group first, mixed failures as out of scope, and uniform ones by the table's row. |
| TargetScope.Matches | pkg/alarmd/admission/target_scope.go:266-328 | A group matches exactly when all its conditions hold on what was read; if not, the trace is that of all groups failed so far. |
| TargetScope.Admit | pkg/alarmd/admission/target_scope.go:147-190 | The loop over groups answers, with its reason, as trying them in order on the facts does, and an empty target and missing facts as the source does. |
| QueryPlanning.Prepare | pkg/alarmd/access/source.go:734-857 | Planning fails exactly when the Slot's facts are not valid, there is no requirement, a requirement has no query or no readiness class, a consumer has no readiness, or the header is not valid; otherwise each frozen (requirement, consumer) pair is in the query of its digest exactly once, planned or set aside, digests are distinct, the order is by deadline, and a recovery sets nobody aside. |
| QueryPlanning.SplitConsumers | pkg/alarmd/access/source.go:770-815 | Consumers are split without loss: planned ones can be planned, set-aside ones cannot, a recovery has none of the latter, and the times are the earliest of the planned. |
| QueryPlanning.PlanRequirement | pkg/alarmd/access/source.go:745-820 | One requirement adds exactly its pairs to the query of its digest and leaves every other query as it was. |
| QueryPlanning.AddParts | pkg/alarmd/access/source.go:795-820 | The query gains the planned and the set-aside parts, with its times still the earliest of its consumers'. |
| QueryPlanning.OrderAll | pkg/alarmd/access/source.go:822-857 | Whatever order the map gives, the result is ordered, holds exactly the map's queries and loses no pair. |
| QueryPlanning.Place | pkg/alarmd/access/source.go:822-857 | Placing a query keeps the order and adds just its pairs. |
| QueryPlanning.SumAny | pkg/alarmd/access/source.go:822-835 | The pairs of a map of queries do not depend on the order it is walked in. |
| QueryPlanning.EarliestIsLeast | pkg/alarmd/access/source.go:770-815 | The earliest readiness is no later than any consumer's, and zero only for no consumer. |
| QueryPlanning.BeforeTransitive | pkg/alarmd/access/source.go:824-835 | Not being sent before is transitive, queries with no deadline coming last and equal. |
| SeriesDelivery.ReconciledIsProviders | pkg/alarmd/access/source.go:1018-1086 | For every stream and all admission decisions, the restated completion is the provider's own for the admitted subsequence with the rest counted as withheld, and is empty exactly when none was admitted. |
| SeriesDelivery.FoldsStill | pkg/alarmd/execution/stream_contract.go:211-231 | If a stream accumulates, so does what is left of it when some series are left out, for the same query and revision. |
| SeriesDelivery.FoldNames | pkg/alarmd/execution/stream_contract.go:211-231 | A proof names its query exactly when something was delivered. |
| SeriesDelivery.SeriesAdapter.ConsumeProviderSeries | pkg/alarmd/access/source.go:1018-1060 | A series is taken exactly when it is well formed for its query and, if some plan wants it, consumer and proof accept it; the forwarded proof and the withheld counts then stay those of all series seen. |
| SeriesDelivery.SeriesAdapter.AdmittedPlans | pkg/alarmd/access/source.go:1093-1145 | Each plan of the query is answered once with its screen's decision, and outside is reported exactly when every plan refused the series as outside its target. |
| SeriesDelivery.SeriesAdapter.DataBindings | pkg/alarmd/access/source.go:1147-1179 | The inputs are those of exactly the consumers whose plan admitted the series, in order. |
| SeriesDelivery.SeriesAdapter.ReconcileCompletion | pkg/alarmd/access/source.go:1071-1086 | The provider's completion restated for what was forwarded. |
| QueryDispatch.ExecutionConserves | pkg/alarmd/access/source.go:313-467 | Whatever the interleaving of sends, ends, failures and cancellations, a successful execution completes each planned query once, in plan order, and binds every frozen pair exactly once. |
| QueryDispatch.OrderDoesNotMatter | pkg/alarmd/access/source.go:440-467 | Two successful executions of one plan with the same answers assemble the same completion, and in a recovery too when the budget ended the same queries. |
| QueryDispatch.PermitsReturned | pkg/alarmd/access/source.go:313-467 | Whatever the interleaving, on return every permit acquired was released exactly once, and each query acquired at most one and was sent at most once. |
| QueryDispatch.StepSane | pkg/alarmd/access/source.go:313-440 | Every event that can happen keeps the dispatch state consistent: pending, in hand and sent queries apart, counts as their states say, and every failure explained. |
| QueryDispatch.RunSane | pkg/alarmd/access/source.go:313-440 | So does every run of events. |
| QueryDispatch.SuccessFits | pkg/alarmd/access/source.go:440-467 | On success every query has an outcome that fits it, and only a recovery's ends with the budget. |
| QueryDispatch.StepsRunOut | pkg/alarmd/access/source.go:313-440 | Every event uses up steps, so every execution is finite. |
| QueryDispatch.NeverStuck | pkg/alarmd/access/source.go:313-440 | An execution that has not returned, cancelled and failed ones included, has an event that can happen. |
| QueryDispatch.GetsOn | pkg/alarmd/access/source.go:313-440 | While nothing has failed and nobody left, an execution that has not returned can take a step forward: take the next query, set it aside, acquire its permit, start it, finish a running one, or stop. |
| QueryDispatch.CanSucceed | pkg/alarmd/access/source.go:313-467 | From every state with no failure, with a provider that answers each query for that query, steps forward alone lead to success. |
| QueryDispatch.OnlyFailuresFail | pkg/alarmd/access/source.go:313-467 | An execution that returns has succeeded if and only if it met none of the failing events. |
| QueryDispatch.FailureCancels | pkg/alarmd/access/source.go:313-440 | Every failure, and the caller's leaving, tells the whole execution to stop, for good. |
| QueryDispatch.NothingSentAfter | pkg/alarmd/access/source.go:313-440 | Once an execution has been told to stop, no query is sent any more, whatever else happens. |
| QueryDispatch.ExecuteSlot | pkg/alarmd/access/source.go:198-467 | From frozen requirements to bindings, for every schedule: an answer is given exactly when the plan and its header are valid and the schedule succeeds, or a recovery's budget was spent before any query; it is the completion of how the queries ended, and binds each frozen pair exactly once. |
| QueryDispatch.NextReadyQuery | pkg/alarmd/access/source.go:536-547 | The choice is the first ready query in plan order, or else the first of those ready soonest. |
| QueryDispatch.OneNext | pkg/alarmd/access/source.go:536-547 | There is only one such choice. |
| QueryCompletion.AssembledConserves | pkg/alarmd/access/source.go:446-467 | However the queries ended, as long as each end fits its query, there is one completion a query in plan order and every pair is bound exactly once. |
| QueryCompletion.OneQueryConserves | pkg/alarmd/access/source.go:471-633 | A fitting end binds each of the query's pairs, planned and set aside, exactly once. |
| QueryCompletion.BudgetConservesExactly | pkg/alarmd/access/source.go:563-593 | Ending a query with its budget binds every one of its pairs if and only if none of its consumers was set aside, which recovery planning sees to. |
| QueryCompletion.SharesClaimNothing | pkg/alarmd/access/source.go:1189-1226 | A binding of a trusted completion never claims data: it is empty of a complete answer, or unknown. |
| QueryCompletion.BindAllBinds | pkg/alarmd/access/source.go:1189-1226 | Binding some requirements binds each of their pairs once. |
| QueryCompletion.CompleteBudgetExhausted | pkg/alarmd/access/source.go:563-593 | A recovery whose budget is gone before any query answers whenever it can be planned, with every query ended by the budget and every frozen pair bound once. |
| QueryCompletion.CompleteReadinessInvalidQuery | pkg/alarmd/access/source.go:595-633 | A query of set-aside consumers alone is completed once with its bindings appended, earlier completions untouched. |
| QueryCompletion.CompleteBudgetExhaustedQuery | pkg/alarmd/access/source.go:563-593 | A query without budget is completed once as unread, earlier completions untouched. |
| QueryCompletion.AppendQueryCompletion | pkg/alarmd/access/source.go:471-497 | An answered query is completed once with the bindings of its planned and set-aside consumers, earlier completions untouched. |
| QueryCompletion.Assemble | pkg/alarmd/access/source.go:446-467 | The loop over results gives the completion stated of queries and outcomes alone, with no order of arrival in it. |
| QueryCompletion.ExecuteSupplement | pkg/alarmd/access/supplement.go:62-102 | A supplement answers exactly when it can be planned and each query with requirements can be replayed; its completion is that of the replayed answers, and binds every frozen pair exactly once, those the Slot had set aside included. |
| QueryCompletion.Replay | pkg/alarmd/access/supplement.go:80-102 | A query is replayed exactly when its read was kept, is trusted and each of its series can be taken in turn, and answers what the provider would have for the series some plan admits. |
| HostIndex.NodeIndexExactly | pkg/alarmd/cmdbcache/index.go:675-684 | After any pages, under a node of a business are exactly the first-read hosts of that business on that node, each identified host once. |
| HostIndex.AddressIndexExactly | pkg/alarmd/cmdbcache/index.go:744-763 | After any pages, an address of a tenant counts the identified hosts of that tenant there, each once, and names a host exactly when there is one, namely that one. |
| HostIndex.HostedElsewhereExactly | pkg/alarmd/cmdbcache/index.go:328-337 | A node with no host under this business is reported hosted elsewhere exactly when some other business has a host there. |
| HostIndex.FieldNamesHost | pkg/alarmd/cmdbcache/index.go:704-739 | The last record read under a field decides whom it names: that record's host as first read, so the two fields of a host name one host. |
| HostIndex.FirstsOneEach | pkg/alarmd/cmdbcache/index.go:704-739 | Filing first reads files every identified host once and invents none. |
| HostIndex.NodeKeysDiffer | pkg/alarmd/cmdbcache/index.go:675-684 | Keys of business and node coincide only for the same business and node, for a business with no separator in it. |
| HostIndex.AddressesDiffer | pkg/alarmd/cmdbcache/index.go:744-784 | Keys of tenant, address and cloud coincide only for the same three, whatever separators the tenant holds. |
| HostIndex.FirstBar | pkg/alarmd/cmdbcache/index.go:675-684 | A part with no separator is cut off unambiguously at the first one. |
| HostIndex.IndexBuilder.AddFields | pkg/alarmd/cmdbcache/index.go:704-739 | A page adds exactly the records that decode, in order, under their fields, counts the others as refused, and keeps the indexes equal to those of all records. |
| HostIndex.IndexBuilder.AddRecord | pkg/alarmd/cmdbcache/index.go:704-739 | A repeated host is only named again and a new one filed; either way the indexes stay equal to those of all records. |
| HostIndex.IndexBuilder.AddToNodes | pkg/alarmd/cmdbcache/index.go:675-684 | The host is appended under each of its nodes in its business and nowhere else. |
| HostIndex.IndexBuilder.AddAddress | pkg/alarmd/cmdbcache/index.go:744-763 | The host is counted at its address, which names it only while it is alone there, and no other address changes. |
| HostIndex.IndexBuilder.AddTopologyNodes | pkg/alarmd/cmdbcache/index.go:664-672 | The known nodes are the non-empty ones given, from then on no longer unknown. |
| HostIndex.IndexBuilder.Topology | pkg/alarmd/cmdbcache/index.go:328-337 | No answer is given before a host has been read and the nodes are known. Then, of all records read: exactly the hosts of that business on the node, each once, whether the node exists, and, with none of that business there, whether another business has one. |
| HostIndex.IndexBuilder.AddressHost | pkg/alarmd/cmdbcache/index.go:778-784 | Of all records read: how many identified hosts of the tenant are at the address, and the host itself exactly when it is the only one. |
| IdentityReport.ReportedExactly | pkg/alarmd/admission/identity_report.go:110-216 | Under a clock that does not go back, a rejection is reported if and only if something listens and no report of that plan and reason, nor for an unmatched identity an admission of the plan, came within a window before it: what sweeps forgot changes nothing. |
| IdentityReport.RejectionsConserved | pkg/alarmd/admission/identity_report.go:110-216 | After any events, rejections of a plan and reason are those reported, plus those pending, plus those swept. |
| IdentityReport.ReportRemembered | pkg/alarmd/admission/identity_report.go:125-207 | The time of a report is still known, or a window has gone by since, across any sweeps. |
| IdentityReport.AdmissionRemembered | pkg/alarmd/admission/identity_report.go:111-207 | The same of an admission. |
| IdentityReport.GroundedAlways | pkg/alarmd/admission/identity_report.go:110-216 | Whatever is remembered of a plan happened: each report and admission time is that of an event of the run. |
| IdentityReport.IdentityReporter.State | pkg/alarmd/admission/identity_report.go:176-185 | The plan is known afterwards, seen now, with its windows kept. |
| IdentityReport.IdentityReporter.Admitted | pkg/alarmd/admission/identity_report.go:111-120 | The state moves as an admission moves the run. |
| IdentityReport.IdentityReporter.Missing | pkg/alarmd/admission/identity_report.go:125-147 | State and report are those of a missing identity in the run. |
| IdentityReport.IdentityReporter.Unmatched | pkg/alarmd/admission/identity_report.go:152-174 | State and report are those of an unmatched identity in the run. |
| IdentityReport.IdentityReporter.SweepPlans | pkg/alarmd/admission/identity_report.go:196-207 | Only plans unseen for ten windows go, and at most once a window. |
| CodePoints.HalvesCombine | pkg/alarmd/contract/v2_canonical_stream.go:413-431 | For every character past U+FFFF, its two UTF-16 halves combine to it. |
| CodePoints.CombinedHalves | pkg/alarmd/contract/v2_canonical_stream.go:413-431 | Any high and low half are those of the character they combine to. |
| CodePoints.DecodeEncode | pkg/alarmd/contract/v2_canonical_stream.go:430-433 | Every scalar value is read back, by a decoder of its own, from the UTF-8 that is appended for it. |
| CodePoints.EncodeDecode | pkg/alarmd/contract/v2_canonical_stream.go:493-505 | Every well-formed front is the encoding of the scalar value it stands for, so no overlong form and no surrogate is taken for a character. |
| CodePoints.HexDigits | pkg/alarmd/contract/schema.go:127-146 | A digit has the value of its place among 0-9a-f or 0-9A-F, and no other byte is one. |
| CodePoints.ShortEscapesAre | pkg/alarmd/contract/v2_canonical_stream.go:388-403 | The eight two-byte escapes stand for the characters RFC 8259 section 7 lists, and no other letter escapes. |
| CodePoints.EscapedReads | pkg/alarmd/contract/v2_canonical_stream.go:372-444 | A text of any characters spelled wholly in \u escapes, halves included, is read as those characters in UTF-8. |
| CodePoints.EscapedIsRaw | pkg/alarmd/contract/v2_canonical_stream.go:59-444 | A text spelled in escapes and the same text spelled raw have the same canonical bytes. |
| CodePoints.ShortestSpelling | pkg/alarmd/contract/v2_canonical_stream.go:462-492 | Of all spellings of an ASCII character the one printed is the shortest, and of equally short ones the one with its digits in lower case. |
| CodePoints.NamedCharacters | pkg/alarmd/contract/v2_canonical.go:156-160 | The replacement character and the two separators are U+FFFD, U+2028 and U+2029. |
| CanonicalSpelling.CanonicalIsShortest | pkg/alarmd/contract/v2_canonical_stream.go:270-357 | No document that writes a value in canonical member order is shorter than its canonical form: no space and no longer escape than there must be. |
| CanonicalSpelling.LessExactly | pkg/alarmd/contract/v2_canonical_stream.go:341-343 | One key is below another exactly when it is a proper prefix of it or has the lesser byte where they first differ. |
| CanonicalSpelling.DeepestRead | pkg/alarmd/contract/v2_canonical_stream.go:83-127 | Arrays are read 512 deep inside an outermost one and no deeper. |
| CanonicalSpelling.AlphabetIs | pkg/alarmd/contract/v2_canonical_stream.go:114-160 | White space, digits, words and marks are the characters RFC 8259 sections 2 and 3 name. |
| Established.AnswersExactly | pkg/alarmd/contract/v2_canonical.go:31-99 | A payload is answered exactly when it is valid UTF-8 and the RFC 8259 grammar writes it from a strict value within the limit, and the answer is the canonical form of that value. |
| FloatRange.FiniteExactly | pkg/alarmd/contract/v2_canonical_stream.go:209-219 | A numeral is within the float range exactly when its digits, scaled by its exponent and its fraction, stay below the bound. |
| FloatRange.OverflowIs | pkg/alarmd/contract/v2_canonical_stream.go:209-219 | The bound is 2^1024 less 2^970, where rounding leaves the finite floats. |
| FloatRange.ExponentReads | pkg/alarmd/contract/v2_canonical_stream.go:209-219 | An exponent below a hundred thousand is read as it is, and a larger one as some number past ten thousand. |
| WireForms.LengthReads | pkg/alarmd/contract/v2_canonical.go:225-243 | A framed length is four bytes whose value, the most significant first, is the length. |
| WireForms.DecimalReads | pkg/alarmd/contract/v2_canonical.go:377-387 | An integer is written as its sign and its decimal digits, with no leading zero. |
| WireForms.RecordBytesAre | pkg/alarmd/contract/v2_canonical.go:377-387 | A record id is taken over exactly: 0,0,0,12, "record-id-v2", 0,0,0,64, the series, the length of the decimal time, and that time. |
| WireForms.RecordIs | pkg/alarmd/contract/v2_records_digest.go:108-168 | A record's canonical bytes with every key spelled out, in the order and with the marks they are hashed. |
| WireForms.RecordMembersAre | pkg/alarmd/contract/v2_records_digest.go:108-120 | A record has just these seven members, and the collection time where there is one, each with its own value. |
| WireForms.DigestTextIs | pkg/alarmd/contract/v2_canonical.go:377-387 | A digest is sixty-four digits of 0-9a-f and nothing else. |
| WireForms.FoldExactly | pkg/alarmd/execution/stream_contract.go:211-231 | A stream has a proof exactly when every delivery is whole and all are of one query and revision, which are the proof's. |
| WireForms.FoldCounts | pkg/alarmd/execution/stream_contract.go:211-231 | A proof counts all the series, records and bytes of its stream. |
| WireForms.ChainIs | pkg/alarmd/execution/stream_contract.go:211-231 | A single delivery keeps its digest; a later one is chained by hashing the version, a zero, the digest before, a zero and its own. |
| WireForms.HexReads | pkg/alarmd/execution/stream_contract.go:211-231 | A digest's text has two lower case digits a byte, the higher first. |
| CredentialDecisions.IssuedExactly | pkg/alarmd/cliauth/scripts.go:10-24 | A grant is issued exactly when its name is free, for five minutes, with the caller's environment, scope and challenge and the current epoch. |
| CredentialDecisions.OpenedExactly | pkg/alarmd/cliauth/scripts.go:26-76 | An exchange opens a session exactly for a live grant of the caller's environment, scope, epoch and challenge whose session name is free; every other reply has its exact case, and the whole new store is stated. |
| CredentialDecisions.StandsExactly | pkg/alarmd/cliauth/scripts.go:78-102 | A session answers exactly its caller, epoch and, where one is given, id, in time; it is extended exactly when asked within ten minutes of its end, and deleted exactly when asked. |
| CredentialDecisions.RenewedExactly | pkg/alarmd/cliauth/scripts.go:112-147 | A renewal is given exactly for a live credential of the caller's environment, scope, epoch and administrator key with both names free; each other reply has its exact case, and what is kept, rolled or dropped is stated. |
| CredentialDecisions.PairedExactly | pkg/alarmd/cliauth/scripts.go:153-176 | An upgrade pairs exactly a standing session without a pairing while fewer than sixty-four are in use and the name is free, and keeps the session's end. |
| CredentialDecisions.ForgottenExactly | pkg/alarmd/cliauth/scripts.go:179-187 | A credential is given up exactly by a caller of its environment, and it and its place in the index are all that goes. |
| CredentialDecisions.RevokedExactly | pkg/alarmd/cliauth/scripts.go:191-196 | A revocation moves the epoch by one, empties the index, and reports what it held. |
| CredentialDecisions.RenewedForItsOwn | pkg/alarmd/cliauth/scripts.go:112-147 | Over every run, a pairing and every credential that follows its first is renewed only for the administrator key, environment and scope it was made under. |
| CredentialDecisions.AnotherKeyEndsIt | pkg/alarmd/cliauth/scripts.go:132-136 | Over every run, the first call under another administrator key that could otherwise renew is answered as such, and the credential is refused to everyone from then on. |
| CredentialDecisions.GrantOpensExactly | pkg/alarmd/cliauth/scripts.go:10-76 | Over every run, an issued grant opens a session exactly for the caller and challenge it was issued to, within five minutes, if it has opened none and nothing was revoked since. |
| CredentialManager.BoughtExactly | pkg/alarmd/cliauth/pairing.go:134-181 | What a renewal comes to, in each case of the records found: bought, key rotated, refused or a store fault, and with whose tokens. |
| AbsentGates.DecidedExactly | pkg/alarmd/absentalerts/difference.go:298-333 | A round decides exactly when the link was read, has no error and succeeded within its bound, and the snapshot is usable, observed, within its age, and not empty unless its writer vouches for it. |
| AbsentGates.RefusalNames | pkg/alarmd/absentalerts/difference.go:298-333 | Each refusal is named exactly for the first of these that fails. |
| AbsentGates.HealthNames | pkg/alarmd/absentalerts/difference.go:427-437 | Each health word has its exact case: an error first, then no success, then one too long ago. |
| AbsentGates.CandidatesAre | pkg/alarmd/absentalerts/difference.go:310-341 | A key is a candidate exactly when the link lists it and the snapshot has its strategy id under no tenant. |
| AbsentGates.CloseRestsOn | pkg/alarmd/absentalerts/difference.go:298-379 | Every close of every run rests on two rounds, each with a current link and snapshot, a grace apart under two observations, with the key missing in every such round between; it names the key's own identity and the time it was first missing. |
| AbsentGates.OutcomesAre | pkg/alarmd/absentalerts/difference.go:353-377 | Each decision's outcome has its exact case: too soon, not seen twice, among the closes, or put off with the bound used up. |
| AbsentGates.NotedInOrder | pkg/alarmd/absentalerts/tracker.go:54-72 | When not all candidates fit the memory, the newly remembered ones come before the dropped ones in key order. |
| TargetAnswers.ObjectKeysExactly | pkg/alarmd/admission/target_scope.go:339-366 | A key is a record's own exactly when some pair of dimensions has two non-empty texts in it and the key is the model, a bar and the instance. |
| TargetAnswers.ObjectKeysDistinct | pkg/alarmd/admission/target_scope.go:339-366 | No key of a record is there twice. |
| TargetAnswers.FieldsAsk | pkg/alarmd/contract/target_scope.go:170-195 | What each field asks of a record in the plain target, case by case: which attribute or dimensions it reads and whether one that is missing is passed over. |
| TargetAnswers.OneObjectAdmits | pkg/alarmd/admission/target_scope.go:266-366 | A target that names one object admits exactly the records whose own model and instance are that object's. |
| TargetAnswers.OneConditionAnswers | pkg/alarmd/admission/target_scope.go:147-264 | A target of one condition admits what the condition holds of, with the exact reason and report of each refusal. |
| TargetAnswers.ReasonsAre | pkg/alarmd/admission/target_scope.go:242-264 | Each reason of a refusal has its exact case over all the groups that failed. |
| TargetAnswers.AnswersUntried | pkg/alarmd/admission/target_scope.go:147-172 | What is answered with no target, an empty one, or facts that could not be consulted. |
| TargetAnswers.DefinitelyOutsideExactly | pkg/alarmd/admission/definitive.go:42-121 | A rejection is definitive exactly for an out-of-target reason on facts that were read, about a record whose named host was found, and for a target plan whose members are definitive. |
| TargetAnswers.StandingsAre | pkg/alarmd/admission/definitive.go:42-86 | Each other standing has its exact case. |
| QueryShares.CompletionSays | pkg/alarmd/access/source.go:471-633 | Every binding of a completion says what the end of its own query gives that pair: an answer's share, or unavailable, unknown and why, with the reference and attempt spelled out. |
| QueryShares.FullOnlyWhenAnswered | pkg/alarmd/access/source.go:471-633 | A binding is full, or available, only where its pair was planned and its query's own answer was full. |
| QueryShares.NobodyUnreadIsAnswered | pkg/alarmd/access/source.go:563-633 | A pair that was set aside, or whose query ended with the budget, is told unavailable and unknown with that path's reason, and never of an answer. |
| QueryShares.PhysicalIs | pkg/alarmd/access/source.go:478-633 | A query's completion copies its whole answer, or says nothing was read under the reference of its path. |
| QueryShares.TrustedExactly | pkg/alarmd/access/source.go:693-706 | An answer is trusted exactly when it names its query and a result and, if full or partial, is of data or of none. |
| QueryShares.EndsAreTrusted | pkg/alarmd/access/source.go:313-467 | On every path that succeeds an answered query was answered by a trusted completion, only a recovery's ends with the budget, and only one without requirements is set aside. |
| QueryTimes.PlannedExactly | pkg/alarmd/access/source.go:794-814 | A query plans exactly consumers whose data is ready before their deadline less their reserve, or anyone in a recovery, and sets aside exactly the others. |
| QueryTimes.TimesAre | pkg/alarmd/access/source.go:808-813 | A query waits for the earliest readiness among its consumers and is due at the earliest deadline less reserve. |
| QueryTimes.OrderedExactly | pkg/alarmd/access/source.go:827-835 | Queries are sent by deadline and then digest, those with none last. |
| QueryTimes.GivenExactly | pkg/alarmd/access/source.go:1147-1179 | A series is given to exactly the planned consumers whose plan takes it, each named by its query, requirement, dataset and role. |
| QueryTimes.WithheldExactly | pkg/alarmd/access/source.go:1018-1040 | A series goes no further exactly when no consumer's plan takes it. |
| QueryTimes.OutsideExactly | pkg/alarmd/access/source.go:1093-1145 | A series counts as outside exactly when some plan reads it and every one that does refused it as definitely outside. |
| QueryTimes.ReconciledKeeps | pkg/alarmd/access/source.go:1071-1086 | Restating a completion keeps its reference, query, completeness and route, and its data unless some of it was withheld. |
| QueryCompletion.ReplayKeeps | pkg/alarmd/access/supplement.go:89-98 | A replayed answer restated for fewer series is still trusted for its query. |
| SeriesDelivery.AccumulatesWhen | pkg/alarmd/execution/stream_contract.go:211-231 | A delivery joins a proof exactly when it is whole and of the same query and revision. |
| HostIndex.FirstsExactly | pkg/alarmd/cmdbcache/index.go:704-739 | A record is filed exactly when it has no id or is the first read under its id. |
| IdentityReport.SweptExactly | pkg/alarmd/admission/identity_report.go:196-207 | A plan is forgotten exactly by a sweep a window or more after the last that finds it unseen for over ten windows. |

## Left out

- CanonicalStream.Pool.CanonicalStreamV2: levels are allocated up front with a count of how many are in use, where the source grows them on demand; that a level is reused and never shared is kept.
- CanonicalStream.SortSpans: stands for `slices.SortFunc` as an insertion sort; everything above it holds of any ascending permutation (`KeyOrder.AscendingIsSorted`).
- CanonicalStream.CanonicalStream.Number: whether a token is finite as a float64 is computed on its decimal digits, not by `strconv.ParseFloat`.
- Established.CanonicalJSONV2: the nesting limit of the established decoder is a parameter counted as the single pass counts, so an empty container exactly at the limit is not told apart; the shortcut for closed types and the encoding of Go structs by reflection are not modelled, nor is `sync.Pool`.
- Established.EstablishedV2: the standard decoder is the RFC 8259 grammar within its nesting limit, not its code; tokens are walked of a text that decodes, where the source walks before it decodes, so which of two errors is named is not modelled.
- RecordsDigest.DeriveSeriesRecordsDigestV2: whether a call is sampled is a parameter, and divergence counters and a difference by hash collision are not modelled; records are values that Go's encoder has already turned to JSON.
- RecordId.RecordIDDeriverV2.Derive: that the saved state of a hash restores is how the running hash is defined.
- CredentialStore.Store.Exchange: the challenge is compared as bytes already derived from the verifier (RFC 7636 section 4.2); its SHA-256 and base64url are not computed. A script call takes effect whole, and its transport and its JSON are not modelled.
- CredentialManager.Manager.Refresh: sealing is a value that only the spent credential opens, and a token stands for the digest its key is made of; rate windows, counters, formats of secrets, administrator checks before the script, HTTP and failures of the store are not modelled.
- CredentialRuns.RepeatedRenewal: needs the repeated call to come within the grace, the caller to be of the same environment and scope, and the session to have been neither ended nor revoked.
- AbsentAlerts.Compute: who carries a close out and how identities are looked up are not modelled; times are integers and a time never set is `None`.
- AbsentBacklog.AbsentAreClosed: the set of absent strategies is taken not to change while its closes are carried out.
- AbsentSafety.CloseIsEarned: a refused round within the run neither ages a key nor counts as an observation, as in the source.
- TargetScope.WithGroupMemberships: works on values, so that the copy shares nothing with the frozen scope is not stated; validating a scope, canonical keys and the decoding of dimension text are not modelled.
- TargetScope.DefinitiveIsOutside: of the filters only the target's own standing is related to the matcher; for the other filters the table of standings alone is modelled.
- QueryPlanning.Prepare: a query's digest, a requirement's readiness class, a consumer's readiness, and whether the contract, due plans, schedules and header are valid are given to it, none computed here; no order is claimed among queries with no deadline, which come from a map.
- QueryDispatch.PermitsReturned: goroutines, channels and contexts are steps in any order; a permit check and the start after it are one step. What the provider answers a query is fixed before the run, and giving back a recovery's own channels, which a deferred call does, is not modelled beside the query permits.
- QueryDispatch.OrderDoesNotMatter: in a recovery the two runs must have ended the same queries with the budget, since when it runs out is a matter of time.
- SeriesDelivery.SeriesAdapter.ConsumeProviderSeries: the contents of a series, and the facts a screen decides on, are a given function; the proof of delivery is a left fold of a hash.
- QueryCompletion.ExecuteSupplement: the kept read is a function of the query; how it is kept, and for how long, is not modelled.
- HostIndex.NodeIndexExactly: hosts are values where the source shares one record by reference; service instances, agents, model instances and business mappings are left out, and JSON decoding is a given function.
- HostIndex.NodeKeysDiffer: a business with the separator in it is shut out, as business ids are numbers.
- QueryTimes.TimesAre: for times after zero; the source takes a time of zero for none yet, and so does the model.
- TargetAnswers.OneObjectAdmits: for models without a bar; a key joins model and instance with one and escapes neither, so others share keys, which `TargetAnswers.FieldsAsk` states in general.
- FloatRange.FiniteExactly: the exponent is the one the float parser reads, which stops once past ten thousand (`FloatRange.ExponentReads`).
- CredentialManager.BoughtExactly: for a spent answer kept under the credential it is sealed with, as every reachable store keeps it (`CredentialSafety.StepKeeps`).
- IdentityReport.ReportedExactly: times and windows are unbounded integers, and samples and dimension names in a report are left out.
- Overflow of counters and times at 64 bits, except where a digest's framing turns on 32 bits.
- Deadlines of a recovery's queries, pending readiness of a Slot, first-read timing, lookback and observability.
- A round trip of TriggerEvent: its decoder drops a field its encoder writes.
- Capacity derivation, configuration, reason catalogues, the gap-reason fold and Python MD5 compatibility, which would only add tables and linear arithmetic.
