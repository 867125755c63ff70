# A model of kpexec

kpexec keeps secrets in a KeePass vault and runs approved commands with a secret injected,
hiding the secret from what the command prints. This project models, in Dafny, the parts of
it whose correctness spans several functions or a whole run, and proves what they promise.
`dafny verify dfyconfig.toml` verifies everything.

- **Output redaction** (`Bytes`, `Redaction`, `Truncation`, `Capture`, `Encoders`, `Variants`,
  `Alignment`, `Planting`, `Overlap`, `Endless`, `Repeats`, `Output`, `Conservation`). A child's output is kept up to a computed limit,
  searched for six encoded forms of the secret, rewritten in bounded passes, searched again,
  and cut without splitting a marker. `Redaction.Scan` is the reference definition of one pass;
  the loops of the program are proved equal to it, and the theorems are about it.
- **Transactions** (`Stores`, `VaultSave`, `Rotation`, `Init`). Files, the Keychain item and
  standard output form one `Host`, whose fault oracle decides call by call what fails, what a
  failed write leaves behind, and whether a Keychain write took effect or merely claims so. The
  host records every instant a crash could hit and counts the calls that failed, so that what a
  transaction promises is stated for every number of failing calls.
- **Entries and their commands** (`Strings`, `Orders`, `Policies`, `Pins`, `Entries`, `OpenVault`, `Handlers`,
  `Check`, `Sessions`). Lookups and updates of the opened vault are loops over its entries, the handlers
  methods over a saved vault; both are proved against functions on the list of entries. `Sessions`
  runs a request against the faulty host: unlock, change, save.
- **Smaller cores** (`Logging`, `Lock`, `Kdf`): the log rotator and the text behind the
  argument digest, the write lock as a state machine with its file format, the key-derivation
  calibration.

## Where the code and its documentation differ

- src/output.rs:39-43, src/output.rs:130-134 and src/output.rs:771-773 hold one pass to be
  enough because the marker shares no escapable byte with a form. A form can share letters with
  the marker: an eight-letter secret `REDACTED` lies inside it and comes back with every
  replacement; a secret `abcdefg[` ends with the marker's first byte, and 41 bytes of output keep
  it alive through all four passes (`Output.BracketSecretIsSuppressed`), as some output does for
  every secret with such an end and any number of passes (`Endless.NeverClears`). Not every overlap
  lasts: a secret of closing brackets only is hidden by two passes (`Repeats.ClosingSecretsClear`).
  For every secret,
  `Overlap.OnePassSufficesExactly` gives the exact condition on the list of all its forms: one
  pass hides them on every input if and only if the secret and the marker do not overlap - neither
  lies in the other, and no end of one is a beginning of the other. The encoded forms add no case
  of their own (`Alignment.IndependentExactly`).
- Keeping only `capture_limit` bytes (src/cmd_run.rs:553-575) is invisible except when the child
  prints the marker text itself across the end of the kept bytes, early enough for the cap, and
  every form is shorter than the marker. `Capture.CaptureInvisibleExactly` is the exact
  statement and `Conservation.EdgeCaseIsReal` a concrete case.
- docs/design.md:80-81 says that resolving a command rejects duplicate names. The code takes the
  first command of that name (src/policy.rs:160-162); only authoring and `kpexec check` look for
  duplicates, and the model follows the code. `Policies.SecondIsUnreachable` is a policy whose
  second command can never be run, and `Handlers.ResolveReachesExactly` says when every command
  can: if and only if commands of equal name are equal. Vaults made by the handlers are such
  (`Handlers.ResolveIsUnambiguous`).
- While a password is rotated there can be instants at which neither the old password nor the
  Keychain item opens anything: after the copy to `.bak` failed or was skipped unnoticed
  (src/vault.rs:211-214), or after restoring the vault failed while restoring the backup went on
  (src/cmd_db.rs:271-272). `Rotation.RotatePassword` states the exact condition, and
  `Rotation.CopyFailureIsReal` and `Rotation.VaultRestoreFailureIsReal` are hosts for the two.
- `VaultLock::acquire` goes on to overwrite a lock file it could not read (src/lock.rs:74), and a
  process that holds the lock may take it again, after which dropping one of the two locks removes
  the file of the other (src/lock.rs:116-120). `Lock.StepKeepsExclusive` shows exactly which steps
  break exclusion; `Lock.UnreadableBreaks` and `Lock.TwiceBreaks` are runs that do.

## Model

| member | source | states |
|---|---|---|
| `Redaction.MatchLenMeaning` | src/output.rs:412-421 | The scan replaces at an offset exactly when some nonempty form stands there, and what it replaces is a form |
| `Redaction.FirstMatches` | src/output.rs:412-421 | Of several forms at an offset the first one of the list is replaced |
| `Redaction.MarkerSpelled` | src/output.rs:53 | The marker is the 17 bytes of `[REDACTED:kpexec]` |
| `Redaction.DirtyIffContains` | src/output.rs:431-442 | A pass has something to replace exactly when the independent window search finds a form |
| `Redaction.CleanUnchanged` | src/output.rs:388-391 | A pass over clean bytes changes nothing, so stopping early loses nothing |
| `Redaction.DirtyScan` | src/output.rs:416-420 | A pass over bytes with a form leaves a marker in the output |
| `Redaction.StartsInMarker` | src/output.rs:407-428 | A form that begins inside marker text, whole or cut off, lies inside the marker or reaches across its edge |
| `Redaction.TailThroughPass` | src/output.rs:407-428 | The tail of a form at the front of a pass's output stood at the front of its input, unless the form can meet a marker |
| `Redaction.OnePassLeavesNone` | src/output.rs:407-428 | A form that does not overlap the marker occurs at no offset of a pass's output, whatever else is in the list |
| `Redaction.OnePassIsClean` | src/output.rs:383-428 | For marker-independent forms one greedy pass leaves none anywhere, and a second pass changes nothing |
| `Redaction.BoundIsIrrelevant` | src/output.rs:383-395 | For marker-independent forms every positive pass bound gives the bytes of one pass |
| `Redaction.InsideNeverClears` | src/output.rs:383-395 | With a form inside the marker, an input that contains any form is never clean, at any bound |
| `Redaction.CleanExactly` | src/output.rs:383-395 | For any list whose texts do not reach across a marker edge: the result is clean if and only if the input was, or no text lies inside the marker |
| `Alignment.AlignedPrefix` | src/output.rs:278-365 | Where a form shows no escape it shows the secret itself, byte by byte |
| `Alignment.OpeningAligned` | src/output.rs:278-365 | Every opening bracket in a form is one of the secret, with the rest of it encoded behind |
| `Alignment.FormInside` | src/output.rs:278-365 | A form that lies inside the marker is the secret |
| `Alignment.FormStraddles` | src/output.rs:278-365 | Where a form contains the marker or reaches across its edge, the secret does too |
| `Alignment.IndependentExactly` | src/output.rs:210-231 | The whole list of forms is marker-independent if and only if the secret is |
| `Planting.ClearStretch` | src/output.rs:311-365 | A run without escapes or brackets in another form is hardly longer than the percent form of the same part of the secret |
| `Planting.NoOtherFormBefore` | src/output.rs:407-428 | Behind the secret up to a bracket, its percent form is not overtaken by another form |
| `Planting.NoPercentBefore` | src/output.rs:407-428 | Nor by an earlier occurrence of a percent form |
| `Planting.PlantedPass` | src/output.rs:407-428 | So a pass replaces that percent form, and copies what stood before and behind it |
| `Overlap.HeadIsLeft` | src/output.rs:407-428 | A secret that begins with the marker's tail is left by a concrete input |
| `Overlap.TailIsLeft` | src/output.rs:407-428 | So is one that ends with the marker's head |
| `Overlap.ContainedIsLeft` | src/output.rs:407-428 | And one that contains the marker, which comes out whole |
| `Overlap.OnePassSufficesExactly` | src/output.rs:39-43 | For every nonempty secret and the list of all its forms: one pass leaves none of them on any input if and only if the secret neither lies in the marker, nor contains it, nor reaches across its edge |
| `Endless.FrontMakesForm` | src/output.rs:354-365 | For a secret that ends with a beginning of the marker, so does its backslash form, behind a front |
| `Endless.FormCounts` | src/output.rs:278-365 | Compared with the backslash form, no other form has fewer bytes that are not backslashes, and only control bytes make the JSON one longer |
| `Endless.NoUnescapedForm` | src/output.rs:407-428 | In repeated fronts no exact, JSON or quoted form begins |
| `Endless.NoBackslashForm` | src/output.rs:407-428 | Nor a backslash form |
| `Endless.NoPercentForm` | src/output.rs:407-428 | Nor a percent form |
| `Endless.FrontPass` | src/output.rs:383-395 | So a pass over several fronts and a beginning of the marker uses up one front, and its marker supplies the same beginning again |
| `Endless.NeverClears` | src/output.rs:383-395 | For every secret that ends with a beginning of the marker (up to 16 bytes), every pass bound has an input that is not clean after all its passes |
| `Repeats.NoFormBeforeHead` | src/output.rs:407-428 | Behind pieces of markers, no form of a secret that begins with the marker's end begins before the secret itself |
| `Repeats.MiddlePass` | src/output.rs:407-428 | A pass replaces the secret where no form begins before it and none is behind it |
| `Repeats.HeadPass` | src/output.rs:383-395 | A pass over such a secret and repetitions of its end uses up one repetition, and its marker supplies the beginning again |
| `Repeats.HeadNeverClears` | src/output.rs:383-395 | So where those repetitions hold no form, every pass bound has an input that is not clean after all its passes |
| `Repeats.WrappedPass` | src/output.rs:383-395 | A pass over the marker wrapped several times in plain bytes takes off one layer |
| `Repeats.WrappedNeverClears` | src/output.rs:383-395 | So a secret that wraps the marker in plain bytes has such an input for every pass bound |
| `Repeats.LeftBehindMarker` | src/output.rs:407-428 | A secret of closing brackets in a pass's output begins with a marker's last byte, and its others stood behind a match |
| `Repeats.ClosingSecretsClear` | src/output.rs:383-395 | Two passes hide a secret of two or more closing brackets, and all its forms, on every input |
| `Conservation.RedactionIsLossless` | src/output.rs:407-428 | For input without marker text, putting the replaced forms back in order restores the input byte for byte |
| `Conservation.HitsAreVariants` | src/output.rs:412-421 | Everything a pass takes out is a nonempty form of the secret |
| `Truncation.MarkersDoNotOverlap` | src/output.rs:53 | Two occurrences of the marker never overlap |
| `Truncation.BestCutIsUnique` | src/output.rs:455-483 | There is one longest prefix length within the cap that splits no marker |
| `Truncation.PullBackIsBest` | src/output.rs:463-479 | Moving the cut to the start of the marker it would split gives that length |
| `Truncation.TruncateNoSplitMarker` | src/output.rs:455-483 | The result is the longest prefix within the cap that splits no marker, gives up fewer than 17 bytes, and is flagged exactly when the input is longer than the cap |
| `Capture.SplitAtBoundary` | src/cmd_run.rs:553-575 | The scan of a text works independently on the two sides of any place where it stops |
| `Capture.BoundaryOfPrefix` | src/cmd_run.rs:553-575 | Cutting the text keeps the scan's earlier stopping places, and adds none when cut at one |
| `Capture.Ratio` | src/cmd_run.rs:559-570 | A pass shrinks text by no more than the longest form over the marker's 17 bytes |
| `Capture.MarkerInOutput` | src/cmd_run.rs:553-575 | Every marker in the output stands for a match, or for marker text of the input, at a stopping place |
| `Capture.MarkerTextStays` | src/output.rs:407-428 | Marker text in the input, whole or cut off at the end, is copied |
| `Capture.RawMarkerBoundary` | src/output.rs:407-428 | The scan always stops at the start of marker text of the input |
| `Capture.LimitMeaning` | src/cmd_run.rs:553-575 | Without saturation the limit is the cap and one longest form; for forms longer than the marker, one longest form for each of the fewest markers that pass the cap, and all but one byte of another |
| `Capture.StablePart` | src/cmd_run.rs:553-575 | Both branches of the limit leave room: redacting up to some stopping place below the limit already passes the cap, and no form found before it ends behind the limit |
| `Capture.SameCut` | src/output.rs:455-483 | Outputs with a common part longer than the cap and the same markers before it are cut alike |
| `Capture.EdgeIsReached` | src/cmd_run.rs:571-574 | Marker text across the limit needs forms shorter than the marker, and then shows in the cut |
| `Capture.CaptureInvisibleExactly` | src/cmd_run.rs:553-575 | Redacting and cutting the kept prefix gives the bytes and flag of the whole stream if and only if the stream does not print the marker across the limit early enough for the cap |
| `Capture.CaptureInvisible` | src/cmd_run.rs:553-575 | They always agree when the longest form has the marker's length or more, or the stream does not print the marker |
| `Conservation.EdgeCaseIsReal` | src/cmd_run.rs:571-574 | With cap 5 and the secret `hunter22`, a child printing the marker gets 13 bytes kept and a different output |
| `Encoders.PercentEncode` | src/output.rs:311-327 | The loop computes the percent form in either hex case |
| `Encoders.ShellSingleQuotedBody` | src/output.rs:336-346 | The loop computes the body of a single-quoted word |
| `Encoders.ShellBackslashEscaped` | src/output.rs:354-365 | The loop puts a backslash before every special byte; `Encoders.SpecialTable` says which these are |
| `Encoders.SpecialTable` | src/output.rs:354-365 | The backslash form escapes a byte if and only if it is in the literal list of 27; a shell reads all of these but `!`, `]`, `{`, `}` and `^` specially, and needs no other byte escaped (section 2.2 of POSIX.1-2017 XCU) |
| `Encoders.ShellTable` | src/output.rs:354-356 | The bytes a shell reads specially when unquoted, as the standard lists them; the shell decoder of the round trips uses this list |
| `Encoders.QuoteTable` | src/output.rs:336-346 | In the single-quoted body exactly the quote changes, to the four bytes that close, escape and reopen |
| `Encoders.PercentTable` | src/output.rs:306-327 | The percent form keeps exactly the letters, digits, `-`, `_`, `.` and `~`, and writes every other byte as `%` and two hex digits of the case |
| `Encoders.JsonTable` | src/output.rs:278-288 | The JSON form changes exactly the quote, the backslash and the control bytes, each to two or six bytes |
| `Encoders.ShortTable` | src/output.rs:278-288 | Which two bytes the short escapes are |
| `Encoders.PercentRoundTrip` | src/output.rs:306-327 | Percent decoding (sections 2.1 and 2.3 of RFC 3986) undoes the percent form in either case |
| `Encoders.SingleQuotedWord` | src/output.rs:329-346 | POSIX quote removal (section 2.2.2 of POSIX.1-2017 XCU) of the quoted body gives the secret back |
| `Encoders.SingleQuotedRoundTrip` | src/output.rs:336-346 | The same, from inside the quotes to the closing one |
| `Encoders.BackslashedReadsBack` | src/output.rs:348-365 | A shell reads the backslash form as the secret without its newlines (section 2.2.1 of POSIX.1-2017 XCU) |
| `Encoders.BackslashedRoundTripExactly` | src/output.rs:348-365 | So it reads the secret itself if and only if the secret has no newline |
| `Encoders.JsonRoundTrip` | src/output.rs:278-288 | Unescaping a JSON string body (section 7 of RFC 8259) undoes the JSON form |
| `Encoders.EncodeInjective` | src/output.rs:278-365 | No form maps two secrets to the same text |
| `Variants.DedupBytes` | src/output.rs:261-271 | The loop keeps the first of each equal text |
| `Variants.DedupMeaning` | src/output.rs:261-271 | Deduplication keeps exactly the given texts, each of them once |
| `Variants.DedupInvisible` | src/output.rs:261-271 | Dropping duplicate or empty texts never changes the redacted bytes |
| `Variants.VariantsMeaning` | src/output.rs:210-231 | The list holds exactly the nonempty encoded forms, each of them once |
| `Variants.SixForms` | src/output.rs:210-231 | The bytes of `"'/` have six different forms, listed here byte by byte in the order they are looked for |
| `Variants.SecretVariants` | src/output.rs:210-231 | The program builds that list |
| `Variants.PlainHasOneVariant` | src/output.rs:571-582 | A secret of letters, digits, `-`, `_` and `.` has itself as its only form |
| `Variants.PlainSecretExactly` | src/output.rs:130-134 | For such a secret of eight bytes or more, redaction at any positive bound ends unclean if and only if it is the word `REDACTED` and occurs in the input |
| `Output.ReplaceAllVariants` | src/output.rs:407-428 | The nested loops compute one pass, and report a replacement if and only if a form occurs in the input |
| `Output.ContainsAnyVariant` | src/output.rs:431-442 | The window search finds a form if and only if one occurs |
| `Output.RedactBounded` | src/output.rs:383-395 | The early-stopping loop computes the result of all allowed passes, and says clean if and only if it contains no form |
| `Output.NotCleanReplacedEveryTime` | src/output.rs:383-395 | When the result is not clean, every one of the allowed passes had something to replace |
| `Output.ProcessWithBound` | src/output.rs:135-181 | Both streams are redacted and cut, or both become the suppression line; `Output.PipelineMeaning` says what each one then is |
| `Output.PipelineMeaning` | src/output.rs:135-181 | Each stream comes out under its own name as the longest prefix within its own limit, splitting no marker, of its own redaction, and is flagged exactly when that is longer than the limit; both are the suppression line exactly when a redaction of one still holds a form |
| `Output.CleanStreamsUnchanged` | src/output.rs:135-181 | Streams within their limits that hold no form come out unchanged, each under its own name |
| `Output.WholeIsBestCut` | src/output.rs:455-483 | Bytes within the limit are not cut |
| `Output.NoFormIsEmitted` | src/output.rs:135-181 | On every input, limit and bound: no form occurs in the emitted bytes of either stream, or the output is the suppression line on both |
| `Output.SuppressedExactly` | src/output.rs:146-157 | For a secret that does not reach across a marker edge, at every positive bound: output is suppressed if and only if a stream contains a form and the secret lies inside the marker |
| `Output.SinglePassSuppressesExactly` | src/output.rs:130-134 | With one pass, for every secret, some output is suppressed if and only if the secret and the marker overlap |
| `Output.EndlessIsSuppressed` | src/output.rs:130-134 | For every secret that ends with a beginning of the marker and every pass bound, some output is suppressed |
| `Output.BegunIsSuppressed` | src/output.rs:130-134 | So for one that begins with the marker's end, where repetitions of its own end hold none of its forms |
| `Output.WrappedIsSuppressed` | src/output.rs:130-134 | And for one that wraps the marker in plain bytes |
| `Output.BracketSecretIsSuppressed` | src/output.rs:130-134 | At the production bound of four passes, the secret `abcdefg[` has its output of five times `abcdefg\` and `[` suppressed |
| `Output.EdgeSecretsAreSuppressed` | src/output.rs:130-134 | So have `]abcdefg` and the marker between two `abcdefg`, each with a real output |
| `Output.SpawnReader` | src/cmd_run.rs:578-594 | Whatever the chunks, the reader keeps the first `limit` bytes of what arrives before end of file or the first error |
| `Output.StreamOfChunks` | src/cmd_run.rs:578-594 | What arrives before end of file or the first error is the chunks before it, put together |
| `Output.MaxSecretVariantLen` | src/output.rs:120-126 | No form is longer, and some form has that length unless it is 0 |
| `Output.CaptureInvisibleInPipeline` | src/cmd_run.rs:553-594 | For marker-independent forms the processed output of both kept prefixes equals that of both whole streams if and only if neither prints the marker across its limit |
| `Output.CaptureAndProcess` | src/cmd_run.rs:489-540 | The same for the whole output side of a run from its reads on; what is processed are the first bytes of each stream up to its own limit, and what is not suppressed contains no form |
| `Stores.Host.Write` | src/vault.rs:192-206 | A file write is not atomic: it passes through, and may leave, other contents |
| `Stores.Host.Rename` | src/vault.rs:216-226 | A rename replaces the target in one step or not at all |
| `Stores.Host.SetItem` | src/cmd_db.rs:217-237 | A Keychain write that fails may have taken effect; an honest success stored the value |
| `VaultSave.WriteTemp` | src/vault.rs:184-206 | Success puts the new vault beside the old one; no other file is touched |
| `VaultSave.SaveAtomic` | src/vault.rs:183-228 | At every instant but the last the vault path holds the complete old file, and at the last the old or the new one; an error means old, success means new; the copy to `.bak` alone failing is not noticed |
| `VaultSave.RestoreFileAtomic` | src/cmd_db.rs:319-337 | At every instant the target is untouched or holds the given contents; it succeeds if and only if no call fails, and an error means untouched |
| `Rotation.BackupRestore` | src/cmd_db.rs:304-316 | It succeeds if and only if no call fails, and then the backup is as captured, including its absence |
| `Rotation.RestoreFiles` | src/cmd_db.rs:270-281 | It succeeds if and only if no call fails; both restores are attempted, so each failing call costs at most one of the two files |
| `Rotation.RollbackRotation` | src/cmd_db.rs:239-268 | Without a failing call everything is as before; each failing or lying call costs at most one of vault, backup and item; success is reported for restored files only |
| `Rotation.SetAndVerify` | src/cmd_db.rs:217-237 | Success means that the item holds the expected credential, even when the store lied about writing it |
| `Rotation.Prepare` | src/cmd_db.rs:95-119 | Nothing is written before every precondition of the rotation holds, and it goes on if they do and no call fails |
| `Rotation.Finish` | src/cmd_db.rs:139-186 | From the saved vault on: item and backup follow, or every store is put back but for one per further failing call; an error that asks for recovery takes two failing calls |
| `Rotation.ReplacePassword` | src/cmd_db.rs:121-186 | The same from the save on |
| `Rotation.RecoverableExactly` | src/cmd_db.rs:121-186 | Something can be opened at every instant if and only if the backup could be opened when the vault was saved and, at the end, the vault was put back or the item or the backup still opens |
| `Rotation.Transact` | src/cmd_db.rs:85-186 | The rotation up to printing: what happened to the stores, the instants and the exact condition for something to open, before the key is shown |
| `Rotation.RecoveryKeyShows` | src/cmd_db.rs:351-380 | Of the printed lines exactly one is four spaces and the new password |
| `Rotation.RecoveryKeyTells` | src/cmd_db.rs:351-380 | Different passwords are never printed alike |
| `Rotation.ShowKey` | src/cmd_db.rs:351-380 | Without a failing call all of these lines are printed and flushed, otherwise perhaps only a beginning of them |
| `Rotation.RotatePassword` | src/cmd_db.rs:85-195 | Under every fault pattern: all stores as before, or all three on the new password with no ciphertext under the old one left and the data kept, or a reported need of recovery, which takes at least two failing calls and leaves at most one store unrestored for each call that failed after the first; after a commit exactly one printed line is four spaces and the new password, and nothing is printed before one; with no failing call it commits if and only if the request allows it; at every instant the vault is one complete file; the owner can open something at every instant if and only if the stated condition on the copy and the restores holds |
| `Rotation.CopyFailureIsReal` | src/vault.rs:211-214 | A host on which only the copy fails goes through an instant at which nothing can be opened |
| `Rotation.VaultRestoreFailureIsReal` | src/cmd_db.rs:270-281 | A host on which the item write and then the restore of the vault fail ends with nothing that can be opened, the backup having been put back to none |
| `Init.Capture` | src/cmd_init.rs:183-192 | A snapshot records the file, or that there is none |
| `Init.Restore` | src/cmd_init.rs:194-205 | It succeeds if and only if its call does, and then the snapshot is back and no other file touched |
| `Init.RollbackInit` | src/cmd_init.rs:208-240 | Every store is tried: each failing or lying call costs at most one of the four, so without one all captured stores are as before; without vault snapshots vault and backup are never written |
| `Init.GuardClobber` | src/cmd_init.rs:147-174 | Passing without force means that there is nothing to overwrite |
| `Init.Link` | src/cmd_init.rs:87-135 | Storing item and config succeeds in both when no call fails; otherwise every store is put back, but for one per further failing call |
| `Init.Provide` | src/cmd_init.rs:272-319 | An adopted vault opens with the typed password and is not written; a failed creation leaves the vault as it was |
| `Init.AnnouncementShows` | src/cmd_init.rs:358-370 | Of the printed lines exactly one is four spaces and the master password |
| `Init.Run` | src/cmd_init.rs:50-143 | Under every fault pattern: when init stops at the Keychain or config write and no other call fails, every store is as before, and each further failing call costs at most one; an adopted vault and its backup are never written, at no instant; a new vault is empty and sealed under the master password, which one printed line shows when all is done, and nothing is printed otherwise; without force an existing item is never replaced; with no failing call it succeeds if and only if neither item, config nor, for a new vault, the vault is there or force is given, and an adopted vault opens |
| `Policies.FindCommandMeaning` | src/policy.rs:160-162 | A command is found if and only if one of that name exists |
| `Policies.FindCommandFirst` | src/policy.rs:160-162 | Of several commands of one name the first is found |
| `Policies.FindCommandUnique` | src/policy.rs:160-162 | With unique names every command is the one found under its name |
| `Policies.FoundExactly` | src/policy.rs:160-162 | Every command is the one found under its name if and only if commands of equal name are equal |
| `Policies.SecondIsUnreachable` | src/policy.rs:160-162 | Of two different commands of one name the second is found under no name |
| `Orders.InsertMeaning` | src/policy.rs:166-169 | Inserting into the tree map keeps its keys in strictly ascending order and adds one |
| `Orders.TallyMeaning` | src/policy.rs:165-175 | A string is counted more than once if and only if two positions hold it |
| `Orders.Repeated` | src/policy.rs:165-175 | Counting into the tree map and filtering it gives the one ascending list of the strings counted more than once |
| `Orders.Duplicates` | src/policy.rs:165-175 | That list is strictly ascending and holds exactly the repeated strings |
| `Orders.AscendingIsUnique` | src/policy.rs:165-175 | Two ascending lists of the same strings are equal, so the order of the report is determined |
| `Policies.DuplicateCommandNames` | src/policy.rs:165-175 | The duplicates of the command names, and none if and only if names are unique |
| `Policies.DuplicateNamesMeaning` | src/policy.rs:165-175 | A name is reported if and only if two commands share it, each name once and in order |
| `Pins.ComputeExactly` | src/pin.rs:38-80 | A pin holds the resolved path, the digest and the size of what is there, if and only if the path is absolute and leads to a readable regular file; enforcing it fails exactly for a path that can be replaced |
| `Pins.EqIgnoreCaseExactly` | src/pin.rs:91-94 | Digests agree if and only if they do position by position but for the case of the twenty-six letters |
| `Pins.VerifyExactly` | src/cmd_run.rs:314-339 | For every command and file system: it runs if and only if its path is absolute and leads to a readable, executable regular file and, with a recorded digest, that file has it and cannot be replaced; it counts as unpinned exactly without a recorded digest; a changed digest is the hash mismatch, exactly when the file is found and executable |
| `Pins.RepinMeaning` | src/cmd_entry.rs:540-566 | Repinning succeeds if and only if the executable of every command of the target's name, or of every command without a target, leads to a readable regular file that cannot be replaced; then these commands record the digest of that file and nothing else changes; otherwise it is a malformed policy |
| `Pins.RepinCommands` | src/cmd_entry.rs:542-574 | The loop that updates pins in place computes that result, and counts nothing if and only if nothing was selected or, without a target, changed |
| `Entries.LookupsIgnoreOrder` | src/vault.rs:244-341 | `find_entry`, `read_secret`, `contains` and the duplicates answer alike for every permutation of the entries, the duplicates in the same order too |
| `Entries.MatchesMeaning` | src/vault.rs:261-273 | An id is duplicated if and only if two positions hold it |
| `Entries.OneEntryServesBoth` | src/vault.rs:275-336 | A policy and a secret found under one id come from one entry, the only one of that id |
| `Entries.OnlyMatch` | src/vault.rs:413-431 | The entry an unambiguous id leads to is the only one of that id |
| `Entries.FindExactly` | src/vault.rs:275-315 | The one entry of an id with its title, its policy of schema `kpexec.policy.v1` and whether its secret is nonempty; nothing for none; an error for several or another policy |
| `Entries.SecretExactly` | src/vault.rs:318-336 | The nonempty secret of the one entry of an id, or which error |
| `Entries.LocateExactly` | src/vault.rs:398-431 | An update goes to the place of the one entry of an id if it may be changed, or which error |
| `Entries.RawsSplit` | src/vault.rs:244-258 | Each entry with an id adds its id, title, policy text and whether its secret is nonempty, in order; one without adds nothing |
| `OpenVault.Vault.FindEntry` | src/vault.rs:275-315 | None, one, or an error for several; a broken policy is an error |
| `OpenVault.Vault.ContainsId` | src/vault.rs:339-341 | Whether any entry has that id |
| `OpenVault.Vault.RawEntries` | src/vault.rs:244-258 | The loop passes over entries without an id and keeps id, title, policy text and whether there is a secret of the others, in order |
| `OpenVault.Vault.DuplicateIds` | src/vault.rs:261-273 | The counting loop reports exactly the ids several entries have, each once and in order |
| `OpenVault.Vault.EntryIdOf` | src/vault.rs:413-431 | The identity of the only entry of an id, or the right error |
| `OpenVault.Vault.ReadSecret` | src/vault.rs:318-336 | The lookup by identity reads the secret of that only entry; an empty secret is an error |
| `OpenVault.Vault.InsertEntry` | src/vault.rs:345-362 | Where the id was free, lookups then find the new title, policy and secret under it; a taken id gets one entry more, and lookups of other ids answer as before |
| `OpenVault.Vault.UpdatePolicy` | src/vault.rs:365-372 | The policy of the only entry of that id is replaced, or nothing changes |
| `OpenVault.Vault.UpdateSecret` | src/vault.rs:375-379 | The same for the secret |
| `OpenVault.Vault.RemoveEntry` | src/vault.rs:382-395 | The only entry of that id is removed, or nothing changes |
| `Handlers.HandleKeepsShape` | src/cmd_entry.rs:66-326 | A successful request keeps ids and identities unique and every policy with one or more uniquely named commands |
| `Handlers.RunKeepsShape` | src/cmd_entry.rs:66-326 | So does every run of add, add-command, rm-command, set-secret, edit, rm and repin, whatever fails |
| `Handlers.HandleKeepsUuids` | src/cmd_entry.rs:66-326 | In any vault, well shaped or not, a successful request keeps identities distinct |
| `Handlers.OnlyNamedChanges` | src/cmd_entry.rs:66-326 | From any vault, a successful request leaves all entries of other ids as they were, in order |
| `Handlers.ReadsBack` | src/cmd_entry.rs:66-326 | After a successful request the lookups find exactly what it asked for, and the rest of the entry as before |
| `Handlers.AddExactly` | src/cmd_entry.rs:66-116 | When adding succeeds, what it leaves and which error it gives otherwise: a blank id or variable name, a secret of less than 8 bytes, bad or equally named commands, an existing id without force (a config error that keeps the entry), several entries of the id, one that may not be changed |
| `Handlers.AddCommandExactly` | src/cmd_entry.rs:136-166 | The same for adding commands, which go behind the old ones |
| `Handlers.RmCommandExactly` | src/cmd_entry.rs:186-215 | The same for removing commands of a name: one must have it and another must stay |
| `Handlers.WithoutSplit` | src/cmd_entry.rs:197 | Exactly the commands of that name go, the others stay in order |
| `Handlers.NewSecretExactly` | src/cmd_entry.rs:235-251 | The same for a new secret of 8 bytes or more |
| `Handlers.EditExactly` | src/cmd_entry.rs:272-298 | The same for description and variable name, where a blank variable name is refused |
| `Handlers.RmExactly` | src/cmd_entry.rs:313-326 | The same for removing an entry |
| `Handlers.RepinExactly` | src/cmd_entry.rs:522-585 | The same for repinning: which target is unknown, which executable stops it, and what each command then records; nothing to repin is no error even where the entry may not be changed |
| `Handlers.BuildCommandExactly` | src/cmd_entry.rs:633-656 | A command needs a name, an executable and balanced quotes, and unless pinning is declined an executable that can be pinned, whose digest it then records |
| `Handlers.BuildAllExactly` | src/cmd_entry.rs:593-603 | Every flag gives its command, or the first that fails gives the error |
| `Handlers.InterviewExactly` | src/cmd_entry.rs:608-631 | The wizard gives the commands up to the first round not followed by another one, or the error of the first round without a command or an answer, or of the end of the input |
| `Handlers.YesExactly` | src/cmd_entry.rs:625 | Another round is asked for by `y`, `Y` or `yes` with any white space around it, and by nothing else |
| `Handlers.RepinLeavesCurrentPins` | src/cmd_entry.rs:522-585 | After a repin every command of the target's name, or every command without a target, records the digest of a file that cannot be replaced, and the run path accepts it if and only if the file is executable; other commands are unchanged |
| `Handlers.ResolveMeaning` | src/cmd_run.rs:268-295 | Resolving is denied unless exactly one entry has the id, its policy is sound and a command has the name; the error says which of these failed first |
| `Handlers.ResolveReachesExactly` | src/cmd_run.rs:268-295 | Every command of an entry can be resolved if and only if commands of equal name are equal |
| `Handlers.ResolveIsUnambiguous` | src/cmd_run.rs:268-295 | In a vault of the shape the handlers keep, resolving a command's name gives the policy and that command |
| `Handlers.SavedVault.ResolveWith` | src/cmd_run.rs:268-295 | Opening, looking up the entry and then the command computes that result |
| `Handlers.BuildAllSplit` | src/cmd_entry.rs:593-603 | Building command lists is building their parts, with the first error winning |
| `Handlers.SavedVault.CollectCommands` | src/cmd_entry.rs:593-603 | The loop builds every command or reports the first error; without commands the wizard is asked |
| `Handlers.SavedVault.CollectInteractive` | src/cmd_entry.rs:608-631 | The wizard stops at the first answer that is not yes, the first command refused, the end of the input or a read that fails; off a terminal it is an error |
| `Strings.TrimsToNothing` | src/cmd_entry.rs:668-676 | Rejecting what trims to nothing is rejecting white space |
| `Strings.TrimMeaning` | src/cmd_entry.rs:625 | Trimming takes white space off both ends and nothing else |
| `Strings.SpaceTable` | src/cmd_entry.rs:668-676 | White space is the 25 characters of the Unicode property White_Space |
| `Handlers.SavedVault.AddWith` | src/cmd_entry.rs:66-116 | The saved vault becomes the specified one, or is unchanged and the error is the specified one |
| `Handlers.SavedVault.AddCommandWith` | src/cmd_entry.rs:136-166 | Likewise for adding commands |
| `Handlers.SavedVault.RmCommandWith` | src/cmd_entry.rs:186-215 | Likewise for removing a command; the last one cannot be removed |
| `Handlers.SavedVault.SetSecretWith` | src/cmd_entry.rs:235-251 | Likewise for a new secret |
| `Handlers.SavedVault.EditWith` | src/cmd_entry.rs:272-298 | Likewise for description and variable name |
| `Handlers.SavedVault.RmWith` | src/cmd_entry.rs:313-326 | Likewise for removing an entry |
| `Handlers.SavedVault.RepinWith` | src/cmd_entry.rs:522-585 | Likewise for repinning, which saves nothing when nothing is to be pinned |
| `Sessions.Unlock` | src/vault.rs:103-172 | The item, its path and the file open the vault if and only if they fit, when no call fails; the error tells a path that does not fit from what cannot be opened |
| `Sessions.RunRequest` | src/cmd_entry.rs:66-326 | On a faulty host, at every instant of a request the vault file holds the entries from before or the wanted ones; it reports success only when they are in the file, an error only when the file is as before, and with no failing call exactly the specified outcome |
| `Check.Report.CheckCommandPin` | src/cmd_check.rs:111-141 | Exactly the specified judgement on the first command of that name is added |
| `Check.PinCheckExactly` | src/cmd_check.rs:111-141 | About the first command of a name it says in this order that the file cannot be hashed, that there is no pin, that it cannot be enforced, that it is current, or that it is stale |
| `Check.PinJudgesAgree` | src/cmd_check.rs:111-141 | Where files are executable, `check` and the run path agree: current means runs as pinned, unpinned means runs as such, nothing else runs, and stale means the hash mismatch |
| `Check.Report.CheckOneEntry` | src/cmd_check.rs:75-109 | Exactly the specified judgements on policy, secret, repeated names and pins are added, in order |
| `Check.Report.CheckIds` | src/cmd_check.rs:38-48 | One failure for every duplicated id, in order, or the statement that ids are unique |
| `Check.Report.CheckEntries` | src/cmd_check.rs:55-65 | The judgements on every entry that is asked for and has no duplicated id |
| `Check.PinChecksFail` | src/cmd_check.rs:106-141 | With unique names, some pin judgement is a failure if and only if some command is not runnable |
| `Check.CommandsFail` | src/cmd_check.rs:98-108 | The commands of an entry bring a failure if and only if a name is repeated or a command not runnable |
| `Check.EntryFails` | src/cmd_check.rs:75-109 | An entry brings a failure if and only if its policy is broken or its commands do |
| `Check.ReportMeaning` | src/cmd_check.rs:35-73 | A report is without failure if and only if ids are unique, a requested entry exists, and every entry looked at passes |
| `Check.CheckVault` | src/cmd_check.rs:35-73 | The whole report is the specified one, judgement by judgement, so it is without failure if and only if the vault passes |
| `Check.ReportHolds` | src/cmd_check.rs:35-73 | Which judgements a report holds: ids are unique, or which are not; no entries; the entry asked for is missing; and everything there is to say of each entry asked for that is alone with its id |
| `Check.EntryChecksExactly` | src/cmd_check.rs:75-109 | What there is to say of an entry: a broken policy; or that it parses, a missing secret, each repeated name, and one judgement for each command |
| `Check.RepinThenCheck` | src/cmd_check.rs:111-141 | After a repin without a target `check` calls every pin of the entry current, also under repeated names |
| `Check.DuplicatedMeaning` | src/vault.rs:261-273 | No id is reported as duplicated if and only if ids are unique |
| `Check.ShapePasses` | src/cmd_check.rs:35-141 | A vault of the shape the handlers keep passes when its executables are in order |
| `Check.PassesExactly` | src/cmd_check.rs:35-141 | A vault passes if and only if ids are unique and every entry has a parsed policy, unique command names and runnable commands |
| `Check.PassesWithoutCommands` | src/cmd_check.rs:98-108 | It passes an entry without commands, which the handlers never leave |
| `Check.PassingIsShape` | src/cmd_check.rs:35-141 | A vault that passes has the handlers' shape, given distinct identities and entries with one or more commands |
| `Logging.RotatingWriter.constructor` | src/logging.rs:110-126 | The writer starts from the files found, counting the active one's size |
| `Logging.RotatingWriter.Rotate` | src/logging.rs:130-154 | The countdown of renames moves every file up one place, drops the oldest and empties the active one |
| `Logging.RotatingWriter.Write` | src/logging.rs:168-175 | It rotates exactly when a nonempty file would outgrow the cap; afterwards the files still concatenate to a suffix of everything logged, no write is split, no file beyond `keep` is made, and none outgrows the cap, the longest write and the active file found |
| `Logging.RotatingWriter.WriteAll` | src/logging.rs:168-175 | The same after any run of writes |
| `Logging.ShiftedSuffix` | src/logging.rs:130-154 | What a rotation leaves, oldest to newest, is still the end of what was logged |
| `Logging.ShiftedBounded` | src/logging.rs:130-154 | A rotation makes no file larger and adds none beyond the depth |
| `Logging.ArgvPreimage` | src/logging.rs:45-54 | The loop feeds the arguments with a NUL between two of them |
| `Logging.SplitUndoesJoin` | src/logging.rs:45-54 | Splitting at NUL recovers every nonempty list of NUL-free arguments |
| `Logging.SamePreimageExactly` | src/logging.rs:45-54 | Two lists are hashed alike if and only if they are equal, or one is empty and the other holds one empty argument |
| `Lock.ParseLock` | src/lock.rs:146-160 | The line loop computes the parse |
| `Lock.ParseUndoesEncode` | src/lock.rs:142-160 | Parsing undoes encoding for every pid and start time |
| `Lock.EncodedText` | src/lock.rs:142-144 | The file holds `pid=` and `start_epoch=` lines in decimal |
| `Lock.LinesExactly` | src/lock.rs:149 | Lines end at a line feed, without a carriage return before it |
| `Lock.LastLineCounts` | src/lock.rs:146-160 | Of the lines with a key the last one counts, even when it holds no number |
| `Lock.ParseUnsignedExactly` | src/lock.rs:150-154 | A number is its decimal form behind zeros and at most one plus sign, within the range of its type |
| `Lock.StepKeepsExclusive` | src/lock.rs:58-120 | Every step keeps at most one process holding the lock, alive and named in the file, if and only if it is none of three: overwriting the file of a holder that could not be read, failing to write it when taking the lock again, and dropping one of two locks of a process |
| `Lock.RunKeepsExclusive` | src/lock.rs:58-120 | Every run of starts, acquires, releases and crashes in which attempts can read the file and no holder takes the lock again keeps at most one holder, whatever writes and removals fail |
| `Lock.UnreadableBreaks` | src/lock.rs:74 | A run of four steps with an unreadable file after which two processes hold the lock |
| `Lock.TwiceBreaks` | src/lock.rs:74-90 | A run of six steps with a lock taken twice after which two processes hold the lock |
| `Lock.RunKeepsTruthful` | src/lock.rs:58-120 | While file operations work, the file names a holder or a process that is gone |
| `Lock.RefusedOnlyWhenHeld` | src/lock.rs:58-107 | Then a process that does not hold the lock is refused if and only if another does or KeePassXC is open, and a dead holder's lock can always be reclaimed |
| `Lock.LockFile.TryAcquire` | src/lock.rs:58-107 | The program's branches take that step |
| `Lock.LockFile.Drop` | src/lock.rs:116-120 | Dropping removes the file when it can |
| `Kdf.RoundedIsNearest` | src/kdf.rs:90-106 | Adding half the divisor before dividing gives a nearest integer |
| `Kdf.NothingSaturates` | src/kdf.rs:96-104 | On every 64-bit count and representable duration the 128-bit arithmetic is exact |
| `Kdf.ScaleIsNearest` | src/kdf.rs:90-106 | The result misses the target by no more than any other count from 1 to 1000, and by less than any larger one |
| `Kdf.SampleSizeIrrelevant` | src/kdf.rs:90-106 | At proportional cost the result does not depend on the sample size |
| `Kdf.CalibrationMeaning` | src/kdf.rs:79-88 | At any cost: a failing sample is the error; the result is the count nearest to half a second by the second sample, taken at the count nearest by the first, unless that is a single pass |
| `Kdf.ProportionalCalibration` | src/kdf.rs:79-88 | So the correction sample changes nothing, and the answer is nearest to the target |

## Left out

- `Encoders.JsonRoundTrip`: the escape table is that of serde_json, which is not part of this repository; the model writes it down as an assumption (short escapes for quote, backslash, backspace, form feed, newline, return and tab, `\u00xx` for other control bytes). Its fallback for bytes that are not UTF-8 is left out: a secret is always a string (src/secret.rs:23-37).
- `Capture.CaptureInvisibleExactly`: when the limit saturates at the largest 64-bit number, the stream is assumed not to be longer than that.
- `Redaction.CleanExactly`: lists with a text that reaches across a marker edge, for which ending clean depends on the passes themselves; for the lists the program builds, `Overlap.OnePassSufficesExactly` covers them with one pass.
- `Output.SuppressedExactly`: secrets that reach across a marker edge. With one pass `Output.SinglePassSuppressesExactly` covers every secret; with more, `Output.EndlessIsSuppressed`, `Output.BegunIsSuppressed` and `Output.WrappedIsSuppressed` state when some output is suppressed and `Repeats.ClosingSecretsClear` a case in which none is, but no condition covers all of those that begin with the marker's end or contain it.
- `Output.ProcessWithBound`: the result is the emitted bytes; the lossy UTF-8 decode and the appended truncation notice come after it and are not modelled.
- `Output.SpawnReader`: a list of read results stands for the pipe; reader threads, the timeout, signals and process spawning are not modelled.
- `VaultSave.SaveAtomic`: encryption is abstract: a file is sealed under a password or is other bytes. Temporary files a crash or a failed removal leaves behind are not promised to be gone.
- `Rotation.RotatePassword`: which stores are unrestored when recovery is reported is bounded by the number of failing calls, and at every instant, but not determined. Printing is a list of lines, each of which may fail.
- `Handlers.SavedVault.ResolveWith`: why opening the vault failed is one error here.
- `Init.Run`: the failure to create a new vault returns without a rollback, as in the code, so `.bak` may then differ. Directory creation and KDF calibration are calls that may only fail.
- `OpenVault.Vault.ReadSecret`: the KeePass identities of entries are assumed distinct, and new ones unused, as the KDBX format provides.
- `Handlers.SavedVault.AddWith`: the prompts for the id, description, variable and secret are taken as answered; splitting a command prefix into words is a parameter, since shell_words is not part of this model; the environment part of a policy is carried along unread.
- `Handlers.SavedVault.RepinWith`: what the handlers print is left out; of the number of repinned commands only whether it is zero is stated.
- `Pins.RepinMeaning`: the file system is a snapshot; canonicalization, ownership and ancestor permissions are looked up in it, the digest is an unspecified function, and how a path becomes replaceable is not modelled.
- `Logging.RotatingWriter.Write`: file operations succeed, sizes are unbounded, and a log file is the list of writes appended to it.
- `Check.CheckVault`: the texts of the judgements are kinds, not messages; rendering is left out.
- `Logging.ArgvPreimage`: the digest itself (SHA-256) is left out; the statements are about the bytes it is given.
- `Sessions.RunRequest`: requests are checked against their own arguments after the vault is opened here, and before in the code, which only shows in which of two errors is reported.
- `Lock.RunKeepsExclusive`: an acquire is one step, as the code's own comment allows (src/lock.rs:92-94), and pids are never reused.
- Keychain access control, code signing and LocalAuthentication: foreign calls.
- Argument parsing, listing and rendering, exit codes, config loading and `doctor`: input, output and case tables.
- Wiping secrets from memory: not a property of results.
