# Verified model of the release engine and the core entities

This project models the parts of the repository that carry real algorithms and
proves what they are for. Each module follows one source component; code that
updates fields, arrays or lists step by step is a method with loop invariants,
proved against a specification function, and the properties are lemmas about
that function.

- **Release engine** - `Packages`, `DependencyGraph`, `ReleaseOrder`,
  `Manifests`, `BuildSelection`, `PublishProtocol`, `PublishOutcome`,
  `PublishRuns`. The publish command is a transition system over the checkout's
  manifests, npm and the phase of the running command. A run may stop at any
  build or publish; a failed publish may or may not have reached npm.
  `Checkout.CmdPublish` is the command itself: it is proved to take only steps
  of that system, and when it completes to leave what `PublishOutcome` reads off
  its events.
- **Runner images** - `RunnerEnv` is the tool that repins image references,
  `VersionOrder` what its comparison means for versions as written, digit by
  digit, `RunnerEnvCheck` the script that judges the references,
  `ImageAcceptance` what it accepts. Tool and script are connected: pinning
  keeps the verdict.
- **npm poll** - `WaitForNpm`, against a clock of which nothing is known but
  that it does not go back and that a pause lasts at least as long as asked.
- **Stored credentials** - `ColonFormat`, `Credential`: three generations of
  ciphertext in one text format, and the in-place migration between them.
- **JSON walks** - `SecretNames`, `SecretSpellings`, `SnapshotRedaction`,
  `StrategyModels`, `ModelNames`.
- **Stateful entities** - `AgentStats`, `KeyRename`, `ToolCategories`,
  `RequestContext`.
- **Retention and dedupe** - `TagRetention`, `TagNames`, `EmailBackfill`,
  `EmailForms`.

`Values.dfy` holds the shared `Option`, ASCII and JSON types.

## Where the code and its documentation disagree

The model follows the code in each case; the lemma named states how far the
promise holds.

- A failed `npm publish` exits the process inside the `try` block
  (`scripts/release-packages.js:227-230`), so the `finally` that puts the
  committed manifest back (`:333-335`) does not run, after a dry run or a
  prerelease as little as after any other. The checkout is as it was exactly
  when no prerelease was being published and the manifest already read as
  released (`FailedPublishLeaves`, for all runs `AfterFailedPublish`); a dry run
  that changes it is `FailedDryRunCanChangeDisk`. After a failed prerelease of
  several packages every later run from that checkout is refused
  (`NothingAfterFailedPrerelease`).
- The error of `order` speaks of a cycle *among* the packages it names, but it
  names every package that leads into one (`ReleaseOrder.Order`). All of them
  are on a cycle exactly when nothing off every cycle depends on a package that
  leads into one (`NamesCyclesExactlyWhen`); a package that is on none is named
  in `NamesABystander`.
- "A snapshot never holds a secret" (`version-snapshot-redaction.ts:12`) fails
  in two ways: secret names stay in objects below depth 32 (`SecretNamesLeft`),
  and ciphertext stays where it is an array element, the snapshot itself or a
  property below that depth (`CiphertextLeft`). `SecretFreeExactlyWhen` says
  when neither does; `SnapshotsHoldSecrets` has a snapshot of each kind.
- `encryptSensitiveData` re-encrypts legacy values; a customer-managed value
  that can be unwrapped is among them and ends up under the platform key
  (`CustomerManagedBecomesPlatform`).
- The pruner's header keeps the cosign artifacts whose digest a kept tag
  references (`scripts/dockerhub-prune.js:15`). The code computes those digests
  and does not use them: no artifact is ever kept (`CosignNeverKept`), so the
  rule holds exactly of listings without a referenced artifact
  (`ArtifactsStayExactlyWhen`) and fails for any signed image behind a moving
  tag (`SignedImageLosesSignature`). With a negative `KEEP_SHA` a second prune
  can delete more (`SecondPruneExactlyWhen`, `MinusOneTakesOneMore`).
- The migration's comment leaves NULL the rows that would collide with an
  already populated one. The code looks only at addresses, so on a column that
  already has values the unique index can fail to build
  (`BackfillIsUniqueExactlyWhen`, `TaggedRowCollides`). It says it replicates the
  application's normalizer; `AgreesWithApplication` says when it does, and
  `SeveralAtsDiffer` has an address on which it does not.
- The pinning tool is to leave no reference older than the Dockerfile's version.
  For a version text like `1e-0.2.3`, which reads back as 0.2.3 with a longer
  flavour, it leaves them all, and adds to the flavours at each run that finds the
  longer tags pushed
  (`NothingOlderLeft`, `SecondPinChangesAgain`, `StaleForEver`).

## Model

| member | source | states |
|---|---|---|
| `ReleaseOrder.Order` | scripts/release-packages.js:76-93 | terminates; fails exactly when the internal dependency graph has a cycle, naming in list order exactly the packages that lead into one, and otherwise returns a permutation sorted by longest dependency chain with ties in input order |
| `ReleaseOrder.LeftAre` | scripts/release-packages.js:84-85 | a name is in the error's list exactly when it is the name of a package that is not done |
| `ReleaseOrder.LeftOfSum` | scripts/release-packages.js:84-85 | the list of a sequence of packages is that of its parts one after the other: list order, and a name as often as there are packages of it |
| `DependencyGraph.IntoCycleExactlyWhen` | scripts/release-packages.js:83-86 | a name leads into a cycle exactly when it starts a chain of as many steps as there are names |
| `ReleaseOrder.NamesCyclesExactlyWhen` | scripts/release-packages.js:83-86 | every package named in the error is on a cycle exactly when no package off every cycle depends on one that leads into a cycle |
| `ReleaseOrder.NamesABystander` | scripts/release-packages.js:83-86 | of a package that depends on one that depends on itself the error names both, though the first is on no cycle |
| `ReleaseOrder.SharedNameStalls` | scripts/release-packages.js:81-86 | of two packages of one name the one that waits for a third is never ready, and the error then names nothing |
| `ReleaseOrder.DependenciesFirst` | scripts/release-packages.js:75-93 | every internal dependency of a listed package is listed before it |
| `ReleaseOrder.OrderIsUnique` | scripts/release-packages.js:75-93 | no other permutation is sorted that way: the order is determined by the manifests |
| `ReleaseOrder.ReadyIsNextRound` | scripts/release-packages.js:82-90 | a round takes exactly the packages whose longest chain is as long as the number of rounds before it, each once |
| `DependencyGraph.SettledIffNoChain` | scripts/release-packages.js:76-93 | a name is done after k rounds exactly when no chain of k dependency steps starts at it |
| `DependencyGraph.StuckMeansCycle` | scripts/release-packages.js:83-86 | a round that finds nothing ready with packages left has found a cycle, and every package left starts chains of any length |
| `DependencyGraph.DependencyIsShallower` | scripts/release-packages.js:75-93 | without cycles a package's longest chain is strictly longer than that of each dependency |
| `Manifests.Workspace.RaiseRanges` | scripts/release-packages.js:128-150 | rewrites exactly the internal ranges that lag behind a published version, and returns exactly the directories whose manifest differs |
| `Manifests.PublishManifest` | scripts/release-packages.js:153-163 | the published manifest, on a copy: suffixed version and internal ranges, nothing else |
| `Manifests.RaisedTouchesOnlyInternal` | scripts/release-packages.js:128-150 | under any publication oracle no version, name, field, entry order or outside dependency moves; an entry changes exactly when it is internal, behind and published |
| `Manifests.RaisingCatchesUp` | scripts/release-packages.js:124-150 | raising again as more gets published ends where raising once would have: interrupted raises lose nothing |
| `Manifests.SecondRaiseReportsNothing` | scripts/release-packages.js:126 | a second raise under the same answers returns no directory |
| `Manifests.PublishedIsIdentity` | scripts/release-packages.js:153-163 | publishing without a prerelease leaves a manifest as it is exactly when each internal range names the released version |
| `Manifests.RaisedIsPublished` | scripts/release-packages.js:128-163 | once npm has every version, the raised manifests are the published ones |
| `Manifests.PublishedNamesPublished` | scripts/release-packages.js:153-163 | each internal range names the version its package is published as, exactly for a prerelease, with a caret otherwise |
| `Manifests.PublishedKeepsDeps` | scripts/release-packages.js:153-163 | publishing changes no package's set of internal dependencies |
| `Manifests.PublishedTouchesOnlyInternal` | scripts/release-packages.js:153-163 | the version gets the suffix after a hyphen; name, fields, entry order and the ranges of outside dependencies stay |
| `Manifests.PublishedExample` | scripts/release-packages.js:153-163 | 1.2.3 names `^1.2.3`, its prerelease 1.2.3-rc.1 names 1.2.3-rc.1 |
| `PublishProtocol.RaiseKeepsRelease` | scripts/release-packages.js:128-150 | raising ranges between runs, under any oracle, changes neither versions nor dependencies of the release |
| `BuildSelection.Needed.Want` | scripts/release-packages.js:287-291 | the recursive walk, on any graph, cycles included: adds the package and what it needs, nothing else |
| `BuildSelection.NeededFor` | scripts/release-packages.js:285-292 | the needed set is the least set that holds the selection and is closed under internal dependencies |
| `BuildSelection.ClosureIsReachability` | scripts/release-packages.js:285-292 | that set is exactly what the selection reaches along dependency chains |
| `BuildSelection.BuildsDependenciesFirst` | scripts/release-packages.js:295-310 | in the build list every dependency of a needed package is listed, and before it |
| `PublishProtocol.StepKeepsInv` | scripts/release-packages.js:254-338 | every step of a full run, from a checkout and an npm of any kind, keeps npm closed under internal dependencies at the release version if it was, likewise at each prerelease suffix, and keeps ranges naming what npm has if they did |
| `PublishProtocol.RunsKeepNpmClosed` | scripts/release-packages.js:254-338 | from any checkout with distinct names and any npm, over any sequence of full runs, each stopping wherever it likes: where npm was closed, at the release version or at a prerelease suffix of it, it stays closed, whatever it is at the others; and where the ranges of what was published named versions npm has, they still do |
| `PublishProtocol.RunsKeepRunInv` | scripts/release-packages.js:254-338 | in any sequence of runs with any options: while a run goes on the checkout describes what was planned, the packages still to come are as they were read, and the others are on npm |
| `PublishProtocol.FinishedRunPublishedAll` | scripts/release-packages.js:312-337 | when the publish loop ends, every package the run was to publish is on npm |
| `PublishOutcome.CompletedRunLeaves` | scripts/release-packages.js:312-337 | of a run that completes, after any number of runs that did not, with any options: after `--dry-run` or `--prerelease` the checkout is what the run read; otherwise each package it published reads as published and every other as the run read it; npm is as it was after a dry run, else it has gained the targets it lacked, as planned, and nothing else; and those are the packages published |
| `PublishOutcome.CommandLeaves` | scripts/release-packages.js:254-338 | the same of one command, by its own first event |
| `PublishOutcome.NpmOnlyGrows` | scripts/release-packages.js:312-337 | over any sequence of runs npm keeps what it has, as it is |
| `PublishProtocol.FailedPublishLeaves` | scripts/release-packages.js:321-335 | after a failed publish the checkout is as it was exactly when no prerelease was being published and every internal range on disk already named its release; it describes the same release exactly when no prerelease was being published, and is at one version exactly then or with a single package |
| `PublishProtocol.AfterFailedPublish` | scripts/release-packages.js:224-231 | all three of these in any sequence of runs with any options |
| `PublishProtocol.NothingAfterFailedPrerelease` | scripts/release-packages.js:224-231 | in a checkout of several packages, nothing happens after a prerelease that failed to publish: every later run is refused |
| `PublishRuns.FailedDryRunCanChangeDisk` | scripts/release-packages.js:321-335 | a run of the protocol in which a dry run fails and leaves another package.json behind |
| `PublishProtocol.NotLockstepRefused` | scripts/release-packages.js:270-273 | from a checkout that is not at one version no run with any options takes a step |
| `PublishProtocol.WriteKeepsRelease` | scripts/release-packages.js:321-335 | a release manifest left in the checkout changes neither versions nor dependencies, so the next run has the same plan to make |
| `PublishRuns.BuildsBeforePublish` | scripts/release-packages.js:295-336 | in any sequence of runs with any options, a publish comes after all builds of its own run have succeeded, its own package's among them |
| `PublishRuns.BuildLinksBuilt` | scripts/release-packages.js:300-308 | each package linked into a build has been built earlier in the same run |
| `PublishRuns.CompletedRunPublishedAll` | scripts/release-packages.js:254-338 | a run that completes, with any options and after any number of runs that did not, leaves every package it was to publish on npm at the version it planned: without `--only` all of the checkout |
| `PublishRuns.OnlyPublishKeepsClosed` | scripts/release-packages.js:312-336 | publishing a single package keeps npm closed exactly when npm had all its dependencies |
| `PublishRuns.Checkout.CmdPublish` | scripts/release-packages.js:254-338 | refuses exactly on a cycle, differing versions or unusable options, touching nothing; otherwise does one planned run of the protocol, reports exactly what that run published, and stops early only if a build, a lookup or a publish failed; when it completes, the checkout is as it was after a dry run or a prerelease and else holds the published manifest of each package it published and nothing else new, and npm has gained exactly the targets it lacked |
| `PublishRuns.PublishedIsDetermined` | scripts/release-packages.js:311-337 | what a run reports as published is fixed by its events |
| `RunnerEnv.Checkout.PinRunnerEnv` | scripts/release-packages.js:182-215 | the whole outcome: files, changed files and missing tags, all or nothing; crashes exactly when there is a reference but no version to compare it with |
| `RunnerEnv.RepinnedSegment` | scripts/release-packages.js:166-215 | text and current references stay; a stale one keeps its place and gets the new version and digest, with its own flavour if the version is exact and with the prefix added if it is prefixed, and is no reference any more for any other text |
| `RunnerEnv.PinnedText` | scripts/release-packages.js:196-209 | whatever it reads as, the new text is the image of that flavour, the version text as it stands in the Dockerfile, and the digest of that tag |
| `RunnerEnv.DigestAsWritten` | scripts/release-packages.js:166 | a digest is `sha256:` and 64 lower-case hexadecimal digits |
| `RunnerEnv.NothingOlderLeft` | scripts/release-packages.js:176-215 | afterwards no reference is older than the Dockerfile's version exactly when no stale flavour was missing, and the version is not behind itself where there was something to pin |
| `RunnerEnv.SecondPinChangesNothing` | scripts/release-packages.js:182-215 | then a second run changes nothing, whatever the registry says by then |
| `RunnerEnv.SecondPinChangesAgain` | scripts/release-packages.js:182-215 | and for a version behind itself it changes every time |
| `RunnerEnv.BehindItself` | scripts/release-packages.js:173-177 | the version text 1e-0.2.3 is behind itself |
| `RunnerEnv.StaleForEver` | scripts/release-packages.js:182-215 | a checkout with one reference that is as stale after a pin to that version as before |
| `RunnerEnv.CompareIsTotalOrder` | scripts/check-runner-env-images.js:44-46 | `compare`, which `older` is too, orders versions totally |
| `RunnerEnv.OlderIsCompare` | scripts/check-runner-env-images.js:44-46 | on exact versions `older`, which works on whatever numbers the text gives, is `compare` |
| `VersionOrder.NumbersAsWritten` | scripts/release-packages.js:173 | two digit texts compare as numbers by their length without leading zeros, and at equal length by their first different digit; they are equal when the texts are, up to leading zeros |
| `VersionOrder.NumberOfJoined` | scripts/release-packages.js:173 | the number of two texts joined is the first moved up by as many places as the second has, plus the second |
| `VersionOrder.StrippedNumber` | scripts/release-packages.js:173 | zeros in front do not matter |
| `VersionOrder.OlderAsWritten` | scripts/release-packages.js:173-177 | a reference is older than an exact version exactly when the first of its parts that differs, leading zeros aside, comes before |
| `VersionOrder.OlderThanSigned` | scripts/release-packages.js:173-177 | of a version text that starts with a hyphen the first part is negative: older only if both first parts are zero |
| `VersionOrder.OlderThanNamed` | scripts/release-packages.js:173-177 | a first part that is no number never decides: the other two do |
| `VersionOrder.OlderThanScientific` | scripts/release-packages.js:173-177 | a first part like 15e-1 compares as the number it is, in whole places |
| `VersionOrder.OlderThanNegative` | scripts/release-packages.js:173-177 | and one like -15e-1 as a negative number |
| `VersionOrder.TenIsNewerThanNine` | scripts/release-packages.js:182-215 | a python reference to 1.9.0 is rewritten when the version is 1.10.0 and the tag `almyty/runner-env:python-1.10.0` has been pushed |
| `RunnerEnvCheck.Checker.CheckReferences` | scripts/check-runner-env-images.js:58-120 | the loops push exactly the findings of the specification, in order |
| `ImageAcceptance.AcceptedExactlyWhen` | scripts/check-runner-env-images.js:75-120 | nothing is found exactly where both lists name images and every entry is one digest-pinned image of its name, no newer than an exact version as written, with its name a target and no internal stage, and each default and each pre-pulled image is one of settings.json - a default the last of its name |
| `ImageAcceptance.RefFindingsAre` | scripts/check-runner-env-images.js:60-73 | `checkRef` reports a wrong image alone, else a missing digest and a version that is too new, each exactly where it is so |
| `ImageAcceptance.NameFindingsAre` | scripts/check-runner-env-images.js:80-81 | a name is reported as no target, or as an internal stage, exactly where it is |
| `ImageAcceptance.DefaultFindingsAre` | scripts/check-runner-env-images.js:99-104 | a default is reported as missing from settings.json, or as another image than there, exactly where it is |
| `ImageAcceptance.FindingsInOrder` | scripts/check-runner-env-images.js:75-120 | findings come file by file, settings.json first, and of an entry those about its name first |
| `ImageAcceptance.LazyNameIs` | scripts/check-runner-env-images.js:116 | the name of a pre-pulled image ends before the first hyphen that a digit follows |
| `RunnerEnvCheck.RefVerdictKept` | scripts/check-runner-env-images.js:60-73 | `checkRef` finds the same in a value before and after it is pinned exactly when the version is exact or the value is no stale reference of that name |
| `RunnerEnvCheck.PinKeepsVerdict` | scripts/check-runner-env-images.js:58-120 | a checkout without findings, across settings, backend defaults and pre-pull list, has none after pinning exactly when the version is exact or settings.json was current; with an exact version settings.json is judged as before in any case |
| `RunnerEnvCheck.PinnedCheckoutPasses` | scripts/release-packages.js:182-215 | a successful pin of a checkout that passes the check leaves one that passes, with no reference behind the Dockerfile |
| `WaitForNpm.WaitForNpm` | scripts/wait-for-npm.js:37-59 | terminates; returns exactly what no poll found served, empty only when all were, non-empty only after a reading at or past the deadline; never polls on after success or past the deadline; bounds the rounds |
| `WaitForNpm.PendingNeverServed` | scripts/wait-for-npm.js:50 | a package is missing in the end exactly when no poll found it |
| `WaitForNpm.PendingOfSum` | scripts/wait-for-npm.js:50 | what is pending of a list is what is pending of its parts, one after the other |
| `WaitForNpm.PendingOfOne` | scripts/wait-for-npm.js:50 | and of one release the release, until it is served |
| `WaitForNpm.PausesWithinTimeout` | scripts/wait-for-npm.js:52-56 | the pauses add up to no more than the timeout |
| `WaitForNpm.RoundsAreFew` | scripts/wait-for-npm.js:46-58 | at most timeout / min(interval, max) + 2 rounds |
| `WaitForNpm.BackoffStep` | scripts/wait-for-npm.js:57 | the capped doubling has the closed form min(interval 2^k, max) after k rounds, although it is computed from the capped value |
| `WaitForNpm.FirstPause` | scripts/wait-for-npm.js:48-54 | the first pause is the interval, even above the longest one, unless the deadline is nearer |
| `WaitForNpm.NextPause` | scripts/wait-for-npm.js:52-57 | each further pause is twice the one before, or the longest interval, or what is left, whichever is least |
| `WaitForNpm.TimePasses` | scripts/wait-for-npm.js:46-58 | each reading is a full backoff step later than the one before, or past the deadline |
| `ColonFormat.SplitJoin` | backend/src/entities/credential.entity.ts:286-349 | splitting undoes joining for fields without colons |
| `ColonFormat.JoinSplit` | backend/src/entities/credential.entity.ts:296-349 | joining undoes splitting for every text |
| `ColonFormat.FromToHex` | backend/src/entities/credential.entity.ts:286-349 | reading hexadecimal undoes writing it, and it holds no colon |
| `ColonFormat.HexText` | backend/src/entities/credential.entity.ts:287-293 | the text has two lower-case digits a byte, the high one first, in the order of the bytes |
| `ColonFormat.FromHexStops` | backend/src/entities/credential.entity.ts:328-330 | reading back stops at the first pair that is not hexadecimal in either case |
| `Credential.DecryptsWhatItEncrypts` | backend/src/entities/credential.entity.ts:286-349 | an encrypted value is in the GCM format and reads back as what was encrypted |
| `Credential.ReadsGcm` | backend/src/entities/credential.entity.ts:321-336 | for all bytes, `encrypted:gcm:` with three hexadecimal fields is opened with the vector, the tag and the ciphertext in this order |
| `Credential.ReadsLegacy` | backend/src/entities/credential.entity.ts:338-348 | for all bytes, `encrypted:` with two hexadecimal fields is opened by the older cipher with the vector first and the ciphertext second |
| `Credential.ReadsCustomerManaged` | backend/src/entities/credential.entity.ts:301-308 | every text that starts with `encrypted:kms:` goes to the organization's unwrapping whole |
| `Credential.ReadsPlain` | backend/src/entities/credential.entity.ts:297-299 | text without `encrypted:` in front reads as itself, and is what encryption encrypts |
| `Credential.OtherFormsMove` | backend/src/entities/credential.entity.ts:205-221 | a value in the GCM format stays as it is; any other that decrypts is encrypted anew |
| `Credential.MalformedFails` | backend/src/entities/credential.entity.ts:310-327 | without a second field, or with another number than three after `gcm`, a value does not decrypt |
| `Credential.LegacyRowsKeepWorking` | backend/src/entities/credential.entity.ts:189-221 | a plain config of which any fields were stored the older way decrypts to that config, before and after the encryption that moves it to the new format |
| `Credential.LegacyRowsMove` | backend/src/entities/credential.entity.ts:212-217 | and each such field becomes the new form of its plaintext |
| `Credential.LegacyExample` | backend/src/entities/credential.entity.ts:338-348 | `encrypted:0a:ff` is opened with the vector 10 and the ciphertext 255 |
| `Credential.Credential.EncryptSensitiveData` | backend/src/entities/credential.entity.ts:195-228 | the loop re-encrypts each sensitive field on its own, in place, and no other |
| `Credential.Credential.GetDecryptedConfig` | backend/src/entities/credential.entity.ts:456-466 | the readable config, or a failure exactly when some value does not decrypt |
| `Credential.EncryptionKeepsMeaning` | backend/src/entities/credential.entity.ts:195-228 | the config decrypts to the same config as before, whatever mix of formats it had, or fails to as before |
| `Credential.EncryptionSettles` | backend/src/entities/credential.entity.ts:195-228 | a second call changes nothing, whatever its random bytes |
| `Credential.EverySensitiveTextIsGcm` | backend/src/entities/credential.entity.ts:195-242 | in a config that decrypts every non-empty sensitive text ends in the GCM format, and everything else stays |
| `Credential.EncryptedFieldForm` | backend/src/entities/credential.entity.ts:195-228 | a field changes format exactly when it is text that decrypts; what does not is left alone |
| `Credential.CustomerManagedBecomesPlatform` | backend/src/entities/credential.entity.ts:195-228 | a customer-managed value stays one exactly when it cannot be unwrapped |
| `Credential.Credential.EncryptSensitiveDataForOrg` | backend/src/entities/credential.entity.ts:251-268 | the loop envelopes each plain sensitive field and no other |
| `Credential.EnvelopeKeepsMeaning` | backend/src/entities/credential.entity.ts:251-268 | the envelope preserves the decrypted config as well |
| `Credential.EnvelopeSettles` | backend/src/entities/credential.entity.ts:251-268 | and a second call changes nothing |
| `SecretNames.SecretByNormalForm` | backend/src/common/version-snapshot-redaction.ts:54-59 | the verdict on a name depends on its normalized form alone |
| `SecretNames.SecretUnderPrefixes` | backend/src/common/version-snapshot-redaction.ts:54-59 | a name stays secret under every prefix exactly when a suffix makes it secret |
| `SecretSpellings.SecretExactlyWhen` | backend/src/common/version-snapshot-redaction.ts:54-59 | a name is secret exactly when it spells a secret name, or ends in a spelling of a secret ending, where a spelling may mix cases and have anything but letters and digits in between |
| `SecretSpellings.SpelledEndingIsSecret` | backend/src/common/version-snapshot-redaction.ts:54-59 | whatever comes before it, a spelling of a secret ending is secret |
| `SecretSpellings.SecretInAnyCase` | backend/src/common/version-snapshot-redaction.ts:55 | names that differ in case only are both secret or both not |
| `SecretSpellings.SecretWithSeparator` | backend/src/common/version-snapshot-redaction.ts:55 | a character that is no letter or digit, put in anywhere, changes nothing |
| `SecretSpellings.UsualSpellings` | backend/src/common/version-snapshot-redaction.ts:34 | clientSecret, apiKey, bot_token and x-api-key are secret |
| `SecretSpellings.PluralIsNotSecret` | backend/src/common/version-snapshot-redaction.ts:51-52 | no name that ends in an s is secret |
| `SecretSpellings.CountersAreNotSecret` | backend/src/common/version-snapshot-redaction.ts:51-52 | maxTokens and tokensPerMinute are not secret |
| `SecretSpellings.SensitiveFieldsAreSecret` | backend/src/entities/credential.entity.ts:231-242 | every field a credential encrypts is one a snapshot drops by its name |
| `SnapshotRedaction.Redact` | backend/src/common/version-snapshot-redaction.ts:61-72 | the recursion and its loop compute the specification, for any verdict on names |
| `SnapshotRedaction.PathsOfRedacted` | backend/src/common/version-snapshot-redaction.ts:61-72 | exactly the kept paths lead anywhere in the result, each to what it led to before, redacted from there on |
| `SnapshotRedaction.NoSecretsInReach` | backend/src/common/version-snapshot-redaction.ts:74-80 | no object down to depth 32 of the result has a secret-named key or an encrypted text |
| `SnapshotRedaction.CiphertextLeft` | backend/src/common/version-snapshot-redaction.ts:61-80 | ciphertext is left in exactly the places redaction does not check: what holds it was kept, and it is the root, an array element, or a property below depth 32 |
| `SnapshotRedaction.SecretNamesLeft` | backend/src/common/version-snapshot-redaction.ts:61-80 | a secret-named property is left exactly in the kept objects below depth 32 |
| `SnapshotRedaction.SecretFreeExactlyWhen` | backend/src/common/version-snapshot-redaction.ts:12-15 | the result holds neither ciphertext nor a secret name at any place exactly when the snapshot has no place of these two kinds |
| `SnapshotRedaction.BuriedSecretStays` | backend/src/common/version-snapshot-redaction.ts:61-72 | a password n objects down stays exactly when n is above 32 |
| `SnapshotRedaction.TextPropertyStays` | backend/src/common/version-snapshot-redaction.ts:66-71 | a text property goes exactly when its name is secret, its text starts with `encrypted:` or it would set the prototype |
| `SnapshotRedaction.SnapshotsHoldSecrets` | backend/src/common/version-snapshot-redaction.ts:74-80 | with the names in use, a snapshot with ciphertext in an array and one with a password 33 objects down still hold them |
| `SnapshotRedaction.RedactedTwice` | backend/src/common/version-snapshot-redaction.ts:61-80 | redacting twice is redacting once |
| `StrategyModels.Report.Walk` | backend/src/entities/strategy.entity.ts:117-136 | the recursive walk over the shared list appends exactly the specified violations |
| `StrategyModels.FoundExactly` | backend/src/entities/strategy.entity.ts:117-136 | a violation is reported exactly when its place holds a model-shaped text or model key that no model key further out hides |
| `StrategyModels.FoundInOrder` | backend/src/entities/strategy.entity.ts:117-136 | violations come in traversal order, each once |
| `StrategyModels.EarlierIsStrict` | backend/src/entities/strategy.entity.ts:117-136 | that order is strict, and any two places are ordered by it |
| `StrategyModels.NothingFoundExactlyWhenClean` | backend/src/entities/strategy.entity.ts:103-143 | nothing is found exactly when nothing at any depth offends, hidden or not |
| `StrategyModels.AcceptedExactlyWhenClean` | backend/src/entities/strategy.entity.ts:114-143 | a strategy is accepted exactly when its shape is clean and no role slot, untrimmed, is model-shaped |
| `StrategyModels.SlotProblemsAre` | backend/src/entities/strategy.entity.ts:139-141 | the slots reported are exactly the model-shaped ones, with their position |
| `ModelNames.ModelKeyInAnyCase` | backend/src/entities/strategy.entity.ts:125 | keys that differ in case only both name a model or both do not |
| `ModelNames.ModelKeys` | backend/src/entities/strategy.entity.ts:111 | the eight keys that do |
| `ModelNames.ModelShapedInAnyCase` | backend/src/entities/strategy.entity.ts:112 | texts that differ in case only both look like a model or both do not |
| `ModelNames.ModelFamilies` | backend/src/entities/strategy.entity.ts:112 | the names of the 21 families do |
| `ModelNames.ModelShapedExactlyWhen` | backend/src/entities/strategy.entity.ts:112 | a text looks like a model exactly when it is a family's name in any case followed by letters, digits, hyphens, dots and underscores |
| `ModelNames.LowerCharIs` | backend/src/entities/strategy.entity.ts:112-125 | lower case makes the two forms of a letter equal, and no two other characters |
| `ModelNames.PaddingHidesNothing` | backend/src/entities/strategy.entity.ts:133 | spaces around a text of the shape neither hide nor make a violation |
| `ModelNames.TrimTakesOff` | backend/src/entities/strategy.entity.ts:133 | trimming takes only spaces, only off the two ends |
| `ModelNames.TrimmedEnds` | backend/src/entities/strategy.entity.ts:133 | and leaves none there |
| `ModelNames.SpacesAre` | backend/src/entities/strategy.entity.ts:133 | the spaces it takes are the 25 of ECMA-262 |
| `ModelNames.ModelAndRole` | backend/src/entities/strategy.entity.ts:132-134 | ` GPT-4o` before a line end is reported as written, `reviewer` is not |
| `AgentStats.Agent.IncrementExecution` | backend/src/entities/agent.entity.ts:423-434 | the counters, cost and average are those of the calls so far |
| `AgentStats.Agent.GetSuccessRate` | backend/src/entities/agent.entity.ts:418-421 | between 0 and 100, the share of successes, 0 exactly when there is none |
| `AgentStats.StoredNearTotal` | backend/src/entities/agent.entity.ts:429-432 | after n calls the stored average times n is at most (n-1)^2/4 below the total time and at most n^2/4 above it, both rounded down |
| `AgentStats.StoredNearMean` | backend/src/entities/agent.entity.ts:429-432 | so it is within n/4 of the true mean |
| `AgentStats.DriftIsReal` | backend/src/entities/agent.entity.ts:429-432 | both bounds are met, for every n and every average |
| `AgentStats.StoredWithinRange` | backend/src/entities/agent.entity.ts:429-432 | it lies between the smallest and the largest time seen |
| `AgentStats.AverageStays` | backend/src/entities/agent.entity.ts:430-432 | the n-th call does not move it exactly when twice its distance is within n, halves above excepted |
| `AgentStats.SuccessesWithinTotal` | backend/src/entities/agent.entity.ts:423-427 | successes never exceed the total |
| `AgentStats.SuccessesAre` | backend/src/entities/agent.entity.ts:424-427 | the successes are the number of calls that succeeded |
| `AgentStats.TotalsOfSum` | backend/src/entities/agent.entity.ts:428 | cost and time of calls add up over any split of them |
| `AgentStats.TotalsOfOne` | backend/src/entities/agent.entity.ts:428 | and one call costs and takes what it says |
| `KeyRename.GatewayTool.TransformInput` | backend/src/entities/gateway-tool.entity.ts:153-168 | the mapping entry by entry on a copy; the input itself without a mapping |
| `KeyRename.GatewayTool.TransformOutput` | backend/src/entities/gateway-tool.entity.ts:170-189 | the same for objects; other values pass through |
| `KeyRename.InOrderIsAtOnce` | backend/src/entities/gateway-tool.entity.ts:158-165 | without clashes, renaming entry by entry is renaming all keys at once, each value kept |
| `KeyRename.AtOnceExactlyWhen` | backend/src/entities/gateway-tool.entity.ts:158-165 | for any mapping and any object with different values it is exactly when each key lands under its new name and no two land together |
| `KeyRename.NewNamesDiffer` | backend/src/entities/gateway-tool.entity.ts:158-165 | no two keys then get one name |
| `KeyRename.InvertedUndoes` | backend/src/entities/gateway-tool.entity.ts:153-189 | the inverted mapping undoes a renaming without clashes exactly when each target every object inherits is one a key was renamed to |
| `KeyRename.OtherKeysStay` | backend/src/entities/gateway-tool.entity.ts:158-165 | for any mapping, keys it does not name are untouched |
| `KeyRename.CountOfKeys` | backend/src/entities/gateway-tool.entity.ts:158-165 | for any mapping, what comes out is what goes in, less one for each entry that overwrites a key at its turn and plus one for each that adds an inherited value |
| `KeyRename.CountKeptExactlyWhen` | backend/src/entities/gateway-tool.entity.ts:158-165 | so as many keys come out as go in exactly when these balance: with no inherited source, when no entry overwrites one |
| `KeyRename.SwapLosesAValue` | backend/src/entities/gateway-tool.entity.ts:158-165 | a mapping that swaps two keys loses one of the values |
| `KeyRename.ChainGoesAllTheWay` | backend/src/entities/gateway-tool.entity.ts:158-165 | a chain of entries carries a key further than renaming at once |
| `ToolCategories.ToolCategory.GetFullPath` | backend/src/entities/tool-category.entity.ts:77-87 | terminates on every forest; joins the names from the root down |
| `ToolCategories.ToolCategory.IsChildOf` | backend/src/entities/tool-category.entity.ts:89-101 | terminates; true exactly of the categories above |
| `ToolCategories.ToolCategory.GetDepth` | backend/src/entities/tool-category.entity.ts:103-113 | terminates; one less than the number of names in the path |
| `ToolCategories.AncestorExactlyWhen` | backend/src/entities/tool-category.entity.ts:89-101 | being above is being reached by one or more parent links |
| `ToolCategories.AncestryIsStrictOrder` | backend/src/entities/tool-category.entity.ts:89-101 | ancestry is irreflexive, transitive and asymmetric |
| `ToolCategories.AncestorsPathIsPrefix` | backend/src/entities/tool-category.entity.ts:77-113 | an ancestor is less deep, and its path and a separator start the path |
| `ToolCategories.PathByParent` | backend/src/entities/tool-category.entity.ts:77-87 | a root's path is its name; any other is its parent's path, ` > ` and its name |
| `RequestContext.Context.RunWithRequestContext` | backend/src/common/request-context.ts:91-103 | whatever updates and scopes run inside, leaving restores the open scopes, each store as it was |
| `RequestContext.Context.Perform` | backend/src/common/request-context.ts:91-116 | the stores on the heap follow the specification of nested actions |
| `RequestContext.Context.UpdateRequestContext` | backend/src/common/request-context.ts:111-116 | nothing outside a scope; in one, the innermost store alone |
| `RequestContext.OuterStoresStay` | backend/src/common/request-context.ts:91-116 | no action, however deeply nested, reaches a store below the top |
| `RequestContext.ScopeRestores` | backend/src/common/request-context.ts:91-103 | a scope as a whole leaves the stack as it found it |
| `RequestContext.OpenedIdIs` | backend/src/common/request-context.ts:91-102 | a scope opens with the request id it is given, be it empty, else with the enclosing one, else with the minted one |
| `RequestContext.StackIsOpenings` | backend/src/common/request-context.ts:91-116 | anywhere in a nest of scopes, whatever has run before, the stores are those of the scopes around the place with their own updates so far: finished scopes leave no trace |
| `RequestContext.ReadsNearest` | backend/src/common/request-context.ts:86-116 | there the request id is the last one an update gave, which null takes away, else the one the scope opened with: its own, the one around it, or a minted one - without such updates, that of the nearest scope around that named one, else the root's; and every other field is what the nearest scope that gave it last gave it: an explicit undefined counts on opening and not in an update |
| `TagRetention.Repository.Prune` | scripts/dockerhub-prune.js:85-125 | removes tags outside the keep set only, all of them unless a deletion fails, none in a dry run, and reports how many it keeps and lists |
| `TagRetention.SelectKept` | scripts/dockerhub-prune.js:89-103 | the loops fill exactly the keep set |
| `TagRetention.ToDeleteIsTheRest` | scripts/dockerhub-prune.js:109-116 | every tag is either kept or listed for deletion |
| `TagRetention.ToDeleteOfSum` | scripts/dockerhub-prune.js:109-116 | the list of a sequence of tags is that of its parts one after the other: deletions go in listing order |
| `TagRetention.KeptNames` | scripts/dockerhub-prune.js:92-103 | moving and semver tags are always kept, and apart from build tags nothing else is |
| `TagNames.ReleasesAreKept` | scripts/dockerhub-prune.js:39 | for all digit texts a, b and c the tags a, a.b and a.b.c are kept whenever they are listed |
| `TagNames.SemverExactlyWhen` | scripts/dockerhub-prune.js:39 | what counts as a release is one to three digit texts joined by dots, and nothing else |
| `TagNames.MovingAreKept` | scripts/dockerhub-prune.js:38 | so are dev, staging, prod and latest |
| `TagNames.KeptAsWritten` | scripts/dockerhub-prune.js:92-103 | a tag that is kept is one of these, or dev, staging or prod, a hyphen and 7 to 40 lower-case hexadecimal digits |
| `TagNames.BuildAsWritten` | scripts/dockerhub-prune.js:40 | the build tags of a prefix are exactly those of that form |
| `TagNames.CountsAddUp` | scripts/dockerhub-prune.js:118-124 | the tags kept and the tags deleted add up to the tags listed |
| `TagRetention.CosignNeverKept` | scripts/dockerhub-prune.js:109-116 | no cosign artifact is ever kept |
| `TagNames.CosignAsWritten` | scripts/dockerhub-prune.js:41 | the artifacts are `sha256-`, a digest of 64 digits, and `.sig` or `.att` |
| `TagRetention.ArtifactsStayExactlyWhen` | scripts/dockerhub-prune.js:15 | the rule that an artifact stays as long as a kept tag references its digest holds exactly of the listings without a referenced artifact |
| `TagRetention.SignedImageLosesSignature` | scripts/dockerhub-prune.js:104-116 | it fails for every signed image behind a moving tag |
| `TagRetention.BuildKeptExactlyWhen` | scripts/dockerhub-prune.js:97-103 | a build tag is kept exactly when it is among the first of its prefix, newest first |
| `TagRetention.NewestBuildsAreKept` | scripts/dockerhub-prune.js:97-103 | of each prefix as many builds are kept as the slice is long, each at least as recent as every deleted one |
| `TagRetention.NewestInOrder` | scripts/dockerhub-prune.js:99-100 | builds updated at the same time stay in listing order |
| `TagRetention.KeptCount` | scripts/dockerhub-prune.js:101 | a count keeps that many builds of a prefix or all; a negative one leaves off that many or all |
| `TagRetention.PruneResumes` | scripts/dockerhub-prune.js:85-125 | a prune that stopped anywhere is finished by the next one, with the same keep set |
| `TagRetention.SecondPruneExactlyWhen` | scripts/dockerhub-prune.js:85-125 | a second prune deletes nothing exactly when the count is not negative or no prefix has more build tags than it leaves off |
| `TagRetention.MinusOneTakesOneMore` | scripts/dockerhub-prune.js:97-103 | with a count of -1 and two build tags it deletes one |
| `EmailBackfill.BackfillPopulatesLeast` | backend/src/migrations/1750746000000-UserNormalizedEmail.ts:59-79 | on a fresh column exactly the least-id row of each class with a local part gets its address |
| `EmailBackfill.FreshBackfillIsUnique` | backend/src/migrations/1750746000000-UserNormalizedEmail.ts:73-85 | so the unique index cannot fail |
| `EmailBackfill.FirstRowIsLeast` | backend/src/migrations/1750746000000-UserNormalizedEmail.ts:66-70 | row number 1 of a partition is the row with the least id |
| `EmailBackfill.EveryAddressIsPopulated` | backend/src/migrations/1750746000000-UserNormalizedEmail.ts:73-79 | each address some row normalizes to ends up in some row |
| `EmailBackfill.BackfillIsUniqueExactlyWhen` | backend/src/migrations/1750746000000-UserNormalizedEmail.ts:14-18 | on any column, the index can be built exactly when the values left standing differ from each other and from every address some row normalizes to |
| `EmailBackfill.PopulatedRowCanCollide` | backend/src/migrations/1750746000000-UserNormalizedEmail.ts:14-18 | a populated row that is not the least of its class collides |
| `EmailBackfill.TaggedRowCollides` | backend/src/migrations/1750746000000-UserNormalizedEmail.ts:14-18 | two rows, one address with a tag: after the backfill the index cannot be built |
| `EmailBackfill.NormSettles` | backend/src/migrations/1750746000000-UserNormalizedEmail.ts:31-65 | a canonical address is its own canonical form |
| `EmailForms.SameInAnyCase` | backend/src/migrations/1750746000000-UserNormalizedEmail.ts:34-39 | addresses that differ in case only have one canonical form |
| `EmailForms.SameWithTag` | backend/src/migrations/1750746000000-UserNormalizedEmail.ts:43-47 | a tag does not matter, whatever the local part and the domain |
| `EmailForms.SameOnGooglemail` | backend/src/migrations/1750746000000-UserNormalizedEmail.ts:35-38 | nor which of the two gmail domains it is |
| `EmailForms.SameWithDotOnGmail` | backend/src/migrations/1750746000000-UserNormalizedEmail.ts:50-53 | nor, on gmail.com, a dot anywhere |
| `EmailForms.DotsStayElsewhere` | backend/src/migrations/1750746000000-UserNormalizedEmail.ts:50-53 | on every other domain an untagged local part stays as it is in lower case, dots and all |
| `EmailForms.LettersStayOnGmail` | backend/src/migrations/1750746000000-UserNormalizedEmail.ts:50-53 | and on gmail.com one without dots |
| `EmailForms.NothingLeft` | backend/src/migrations/1750746000000-UserNormalizedEmail.ts:41-62 | without a local part or an at sign there is no canonical form |
| `EmailForms.ApplicationKeepsDots` | backend/src/modules/auth/email-normalization.ts:107-154 | the application keeps the dots elsewhere too |
| `EmailBackfill.AgreesWithApplication` | backend/src/modules/auth/email-normalization.ts:107-154 | where the backfill has a value, with any number of at signs, when it is the one the application computes |
| `EmailBackfill.SeveralAtsDiffer` | backend/src/migrations/1750746000000-UserNormalizedEmail.ts:8-12 | on a@b@c it is not |

## Left out

- ReleaseOrder.Order: requires distinct package names, as npm has them; with two of one name it can get stuck without a cycle (`SharedNameStalls`).
- WaitForNpm.WaitForNpm: requires positive intervals and a clock that does not go back; times are real numbers, without floating-point rounding.
- ToolCategories.ToolCategory.IsChildOf: requires an acyclic forest with unique ids, on which alone the source's loops end and ids identify categories.
- KeyRename.AtOnceExactlyWhen: an entry whose source every object inherits finds a key of that name at its turn; assignment to `__proto__`, which sets a prototype, is not modelled.
- EmailBackfill.AgreesWithApplication: addresses without white space, in ASCII lower case, and whose domain is not a property name every object inherits.
- EmailBackfill.NormSettles: lower case is that of ASCII letters.
- SnapshotRedaction.PathsOfRedacted: requires that no object has a key twice, as JavaScript objects do not.
- AgentStats.StoredNearMean: execution times are integers of any size; doubles lose precision beyond 2^53.
- RunnerEnv.Checkout.PinRunnerEnv: files are sequences of references and text between them; the regular expressions that find references are not modelled, numbers are exact, not doubles, and a Dockerfile version that holds a whole reference of its own is left aside.
- Credential.EncryptionKeepsMeaning: rests on the cipher opening what it sealed; keys, tags, UTF-8 and lone surrogates are inside that assumption, and legacy and customer-managed decryption are arbitrary functions that may fail.
- Config values of a credential are a map, so a config that is an array is not modelled.
- The links a build lays into node_modules are covered by their order only; file copies, `npm ci`, npm, docker and git commands are oracles, and console output is left out.
- `syncLocks`, `syncRunnerEnvDockerfile`, and the Dockerfile and workflow-matrix findings of the image check: comparisons of single values.
- Registry paging, login and HTTP errors of the prune beyond a deletion that fails; invalid `last_updated` dates.
- Asynchronous propagation of request scopes: scopes nest as a stack, and a body that throws leaves its scope as one that returns.
- Getters, permission checks and counters of the entities that have a single branch.
- Run leases, approvals, wake inbox, budgets and workspace state machines: the repository's columns and comments for them are there, but their transitions are not part of this model.
