# Verified models of six engines

This project models six parts of the ADHDev repository that carry state or arithmetic
and proves what they promise. `dafny verify dfyconfig.toml` checks all of it.

**Worker session binds** (`BindRegistry`, `BindEffects`, `BindRuns`, `BindEndings`,
`BindStatus`, `BindReconcile`).
The registry by which a daemon recognises the workers it spawned: live entries, an index
by (mesh, session), a bounded FIFO of revoked hashes and durable rows. The class
`Registry` carries the source's methods, each tied to a function on states; runs of
events, restarts included, are sequences of these functions. Every call into the durable
store may throw in any step; a result that needs a call to succeed names that call.
Secrets are assumed fresh, and hashing is injective because a hash is symbolic.

**Sparse mesh policy** (`Json`, `PolicyTable`, `PolicyStore`, `PolicyLaws`,
`PolicyPatches`, `PolicyValues`, `SlotCaps`). One table of per-key rules drives the reader, the
normalizer, the patch merge and the migration. `Number(...)` on non-blank strings, arrays
and objects is a parameter of which nothing is assumed, so the laws hold for any such
coercion.

**Terminal rows** (`Utf8`, `Memory`, `ByteBuffers`, `RowReader`, `RowLaws`, `Viewports`).
The growable buffer, the UTF-8 encoder, the column loop that builds row text and cell
table together, and who owns which block on every exit path. The terminal library is a
fixed grid behind calls that may fail at any time, and so may every allocation; failures
are counted, so that contracts say exactly when an operation succeeds.

**Join limiter** (`JoinLimiter`, `LimiterRuns`). The sliding log with pruning and a
tracking cap, against a limiter that forgets nothing.

**Owner authority** (`OwnerAuth`, `OwnerLogins`). Epoch, token, password and session store, and the
guards a request captures and evaluates again later. Each synchronous block after an
`await` is one step.

**Daemon ids** (`DaemonIds`) and **static reachability** (`Reachability`). Three
spellings of one machine with a canonical form and an expansion; a worklist with a cache.

`Basics`, `Text` and `Ordered` hold shared types, JavaScript trimming and
insertion-ordered maps.

## Where code and documentation part

The model follows the code. Where a documented or expected promise turns out false, the project
holds the exact condition.

- The registry keeps working when a store call throws. Since a reconcile does not look at
  the revoked hashes, a bind whose row could not be deleted can become live again:
  `EndedComesBackIff` is the exact condition on the ending event, `RevokedAndRehydrated`
  a run within one incarnation.
- The normalizer is documented to throw only for an invalid `onDependencyFailure` or
  `maxNodes`. It also throws for a set key named like a property of `Object.prototype`
  (`toString`, `constructor`): `AcceptedIff`, `InheritedNameIsRejected`.
- `canonicalDaemonId` is documented as idempotent. It is not for an id with two daemon
  prefixes: `CanonicalIsIdempotentIff`, `CanonicalIsNotIdempotent`.
- A password record with an empty hash or salt yields owner guards that are false from
  the start (`CapturedOwnerGuardHoldsIff`). The daemon does not get there: it reads its
  configuration once, before any session (`DaemonGuardsHoldAtCapture`). A second
  `configureAuth` with such a record does (`SecondConfigurationBreaksGuards`).
- The cell table stores offsets and lengths in 32 bits, so the slices tile the cell text
  exactly when everything fits: `SlicesTileIff`, and `HugeClusterDoesNotTile` for the rows
  where it does not.
- An over-limit refusal carries a usable `retryAfterMs` exactly if the limit is at least 1:
  `RetryHintIff`. For a limit of 0 or less the source computes NaN, and the model returns
  no value.

## Model

| member | source | states |
|---|---|---|
| `BindEndings.EndedIsNeverLiveAgain` | packages/daemon-core/src/worker-session-bind-registry.ts:198-314 | Over every run with fresh secrets: a bind ended by a re-mint, its revocation, its session ending or a reconcile that lost its session, whether it was live or waited in the store after a restart, is never reported live again, after any later restarts, reconciles and store failures and after it left the FIFO, provided its own row was deleted. |
| `BindEndings.EndedComesBackIff` | packages/daemon-core/src/worker-session-bind-registry.ts:145-148 | Told by the ending event alone: some continuation reports the ended bind live if and only if the store calls of that event failed to delete its row, spelled out per event. |
| `BindEndings.LiveIffNotEnded` | packages/daemon-core/src/worker-session-bind-registry.ts:150-373 | Safety and survival in one: as long as the events that end it delete its row, a minted bind, presented while its session is live here, is reported live if and only if no event has ended it. |
| `BindEndings.WorkingStoreLiveIffNotEnded` | packages/daemon-core/src/worker-session-bind-registry.ts:150-373 | The same over every run on a working store, without that proviso. |
| `BindEndings.EndedWhileWaiting` | packages/daemon-core/src/worker-session-bind-registry.ts:211-217 | Such runs exist: any bind can be minted, lose its entry to a restart and be ended before it is adopted again. |
| `BindEndings.ComesBackIffItsRowSurvived` | packages/daemon-core/src/worker-session-bind-registry.ts:145-148 | With failing store calls: a minted bind that is not live can be reported live by some continuation of the run if and only if its row is still stored. |
| `BindEndings.FailedDeletionIsRehydrated` | packages/daemon-core/src/worker-session-bind-registry.ts:353-373 | The failing case in one incarnation: if the deletion of a revoked row threw, a reconcile makes the bind live although its hash is remembered as revoked. |
| `BindEndings.RevokedAndRehydrated` | packages/daemon-core/src/worker-session-bind-registry.ts:353-373 | The same as a run from the empty registry: mint, revoke with a throwing deletion, reconcile. |
| `BindEndings.EndingLeavesRowIff` | packages/daemon-core/src/worker-session-bind-registry.ts:198-373 | In every reachable state, an ended bind is not live, and its row is left if and only if the store calls of the event failed to delete it: by hash, by session, or, for a re-mint, by the listing up to the first row that cannot be deleted. |
| `BindEndings.OnlyEndingsEnd` | packages/daemon-core/src/worker-session-bind-registry.ts:198-373 | No other event ends a bind: its row stays as it is, and a live bind stays live until a restart, even if a reconcile does not list its session. |
| `BindEndings.MintedBindSurvives` | packages/daemon-core/src/worker-session-bind-registry.ts:150-269 | A minted bind whose row was written survives every run that does not end it, whatever store calls that run loses; presented while it is in memory or its session is live here, it is live with exactly the mesh, session, node and task of the request and its mint time, marked restored if and only if a restart happened, and otherwise its session is reported as not live. |
| `BindEndings.MintAnswersItsRequest` | packages/daemon-core/src/worker-session-bind-registry.ts:198-232 | Right after a mint the bind is live under the mesh and session of the request; the end of that session, and of no other, ends it, and so does a second mint of the pair. |
| `BindStatus.StatusOverRuns` | packages/daemon-core/src/worker-session-bind-registry.ts:250-269 | Everything a minted bind is told over every run on a working store: live or session not live until it is ended; then revoked while it is among the last 4096 revocations since the last restart, and unknown after that. |
| `BindStatus.RevokedIsReported` | packages/daemon-core/src/worker-session-bind-registry.ts:259-282 | Store failures allowed: a live bind that is revoked and loses its row is told revoked until a restart or until 4096 later revocations have pushed it out. |
| `BindStatus.FifoIsTheLastRevocations` | packages/daemon-core/src/worker-session-bind-registry.ts:276-282 | Over a working store the FIFO is exactly the last 4096 revocations since the last restart, oldest first. |
| `BindStatus.UnmintedIsUnknown` | packages/daemon-core/src/worker-session-bind-registry.ts:260-264 | Over every run, a secret that no event minted is unknown. |
| `BindStatus.EndedIsUnknownAfterRestart` | packages/daemon-core/src/worker-session-bind-registry.ts:255-264 | An ended bind whose row is gone is unknown from the next restart on, for good. |
| `BindStatus.BlankIsInvalid` | packages/daemon-core/src/worker-session-bind-registry.ts:251-251 | A blank bind is invalid and changes nothing. |
| `BindStatus.RevokedByIsWhatEnds` | packages/daemon-core/src/worker-session-bind-registry.ts:284-314 | The binds an event revokes are exactly the live ones it ends, each once. |
| `BindRuns.EveryRunKeepsTheIndexExact` | packages/daemon-core/src/worker-session-bind-registry.ts:104-115 | In every reachable state, whatever the store does: the index holds exactly the live hashes of each session key, none of its sets is empty, the FIFO holds at most 4096 distinct hashes, a live entry that has a row has its fields, and no hash is known that was not minted. |
| `BindRuns.WorkingStoreAgreesWithMemory` | packages/daemon-core/src/worker-session-bind-registry.ts:161-231 | In every state reached over a working store: every live entry has a row with the same fields, no revoked hash has a row or is live, and each (mesh, session) has at most one row and at most one live bind. |
| `BindReconcile.ReconcileSplitsTheRows` | packages/daemon-core/src/worker-session-bind-registry.ts:353-373 | The counts are the sizes of the three disjoint classes and add up to the rows that are not live; rows of listed sessions stay; only sessions in the live list and live here are adopted, with the fields of their rows; live entries are untouched. |
| `BindReconcile.SecondReconcile` | packages/daemon-core/src/worker-session-bind-registry.ts:334-373 | A second reconcile with the same inputs, store failures included: memory stays, nothing is rehydrated, as many rows are deferred, and exactly the rows whose deletion threw are pruned again. |
| `BindReconcile.SecondReconcileChangesNothing` | packages/daemon-core/src/worker-session-bind-registry.ts:334-373 | Over a working store a second reconcile leaves all four stores as they are, rehydrates and prunes nothing and defers as many rows. |
| `BindReconcile.FatesAfterReconcile` | packages/daemon-core/src/worker-session-bind-registry.ts:360-371 | After a reconcile exactly the rows deferred before are deferred and exactly the pruned ones whose deletion threw are left to prune; every other remaining row is live. |
| `BindReconcile.UnlistedReconcile` | packages/daemon-core/src/worker-session-bind-registry.ts:354-356 | If the rows cannot be listed, a reconcile changes nothing and counts nothing. |
| `BindEffects.MintEffect` | packages/daemon-core/src/worker-session-bind-registry.ts:198-232 | A mint replaces the live entries of its session key by the new one and touches no other key; rows of that key are gone unless a store call threw, and the new row is there unless the write threw. |
| `BindEffects.MintLeavesRowIff` | packages/daemon-core/src/worker-session-bind-registry.ts:210-217 | Exactly which rows a mint leaves under which store failures, live or not. |
| `BindEffects.PresentEffect` | packages/daemon-core/src/worker-session-bind-registry.ts:250-269 | Presenting changes no row and no revocation, keeps every live entry, and adopts only rows that were not revoked, with their fields. |
| `BindEffects.RevokeForSessionEffect` | packages/daemon-core/src/worker-session-bind-registry.ts:305-314 | Ending a session removes exactly its live entries, in every mesh, and exactly which rows go under which store failures. |
| `BindEffects.DropListedEffect` | packages/daemon-core/src/worker-session-bind-registry.ts:213-217 | The loop that drops the listed rows of a session key, exactly: a row goes if and only if it is of that key and no row of the key listed at or before it throws. |
| `BindEffects.ReconcileListedEffect` | packages/daemon-core/src/worker-session-bind-registry.ts:360-371 | The reconcile loop in closed form: the rehydrated rows are live, the pruned ones lost their rows unless the deletion threw, nothing else moved. |
| `BindEffects.RevokeByHashKeepsIndex` | packages/daemon-core/src/worker-session-bind-registry.ts:284-297 | Revoking one hash keeps the index exact and free of empty sets. |
| `BindEffects.RememberedLast` | packages/daemon-core/src/worker-session-bind-registry.ts:276-282 | The FIFO keeps its bound and its distinctness, always holds the hash just revoked, and gains no other. |
| `BindRegistry.SessionKeyIsInjective` | packages/daemon-core/src/worker-session-bind-registry.ts:120-122 | The NUL-joined key identifies the pair (mesh, session) for mesh ids without NUL. |
| `BindRegistry.Registry.constructor` | packages/daemon-core/src/worker-session-bind-registry.ts:104-115 | A registry starts empty. |
| `BindRegistry.Registry.Add` | packages/daemon-core/src/worker-session-bind-registry.ts:161-170 | Adds to the live map and to the index. |
| `BindRegistry.Registry.Remember` | packages/daemon-core/src/worker-session-bind-registry.ts:276-282 | Adds to the FIFO, evicting the oldest hash beyond the cap. |
| `BindRegistry.Registry.RemoveFromIndex` | packages/daemon-core/src/worker-session-bind-registry.ts:290-295 | Removes a hash from the index, and its set once empty. |
| `BindRegistry.Registry.RevokeHash` | packages/daemon-core/src/worker-session-bind-registry.ts:284-297 | Deletes the row, then entry and index entry of a live hash, and reports whether it was live. |
| `BindRegistry.Registry.RevokePrior` | packages/daemon-core/src/worker-session-bind-registry.ts:210-210 | Revokes every bind of the session key, as the fold over the indexed hashes. |
| `BindRegistry.Registry.DropRows` | packages/daemon-core/src/worker-session-bind-registry.ts:213-217 | The loop over the listed rows is the recursive drop; a throwing deletion ends it. |
| `BindRegistry.Registry.MintBind` | packages/daemon-core/src/worker-session-bind-registry.ts:198-232 | The whole new state, and the binding or the rejection of blank ids. |
| `BindRegistry.Registry.PresentBind` | packages/daemon-core/src/worker-session-bind-registry.ts:250-269 | The whole new state and the status with its binding, for all five statuses. |
| `BindRegistry.Registry.RevokeEntriesNaming` | packages/daemon-core/src/worker-session-bind-registry.ts:308-311 | The loop over the live entries; its count is the number of entries lost. |
| `BindRegistry.Registry.RevokeSession` | packages/daemon-core/src/worker-session-bind-registry.ts:305-314 | The whole new state, and a count equal to the number of live binds lost. |
| `BindRegistry.WithoutSession` | packages/daemon-core/src/mesh/worker-session-bind-store.ts:74-76 | Exactly the rows of the session are gone, and the others keep their fields. |
| `BindRegistry.Registry.OnTerminated` | packages/daemon-core/src/worker-session-bind-registry.ts:322-327 | A shutdown of the daemon changes nothing; any other end revokes the session. |
| `BindRegistry.Registry.RevokeBindSecret` | packages/daemon-core/src/worker-session-bind-registry.ts:329-332 | The whole new state, and whether the bind was live. |
| `BindRegistry.Registry.ReconcileAfterRestore` | packages/daemon-core/src/worker-session-bind-registry.ts:353-373 | The whole new state and the three counts, a failing list call included. |
| `BindRegistry.Registry.HasLiveBind` | packages/daemon-core/src/worker-session-bind-registry.ts:393-400 | True exactly if some live bind names the trimmed, non-blank session. |
| `PolicyLaws.NormalizeIsIdempotent` | packages/daemon-core/src/repo-mesh-policy-resolve.ts:298-321 | For every accepted block, normalizing the normalized block returns it unchanged. |
| `PolicyLaws.NormalizeIsResolveNeutral` | packages/daemon-core/src/repo-mesh-policy-resolve.ts:276-321 | For every accepted block, the normalized block resolves to the same policy, through every clamp, alias, sub-object and dropped default. |
| `PolicyLaws.StoredAlikeIffResolvedAlike` | packages/daemon-core/src/repo-mesh-policy-resolve.ts:298-321 | The stored form is canonical: two accepted blocks are stored alike if and only if they resolve alike. |
| `PolicyLaws.StoredFormIsSparse` | packages/daemon-core/src/repo-mesh-policy-resolve.ts:306-321 | No stored known key resolves as an unset one would, and no retired key is stored. |
| `PolicyLaws.AcceptedIff` | packages/daemon-core/src/repo-mesh-policy-resolve.ts:199-266 | Exactly which blocks a write accepts: maxNodes unset or a whole number from 1 to 64, onDependencyFailure unset, block or cancel, and no set key with a name inherited from Object.prototype. |
| `PolicyLaws.InheritedNameIsRejected` | packages/daemon-core/src/repo-mesh-policy-resolve.ts:308-316 | A block the documentation says is accepted and the code rejects. |
| `PolicyPatches.PatchingIgnoresSpelling` | packages/daemon-core/src/repo-mesh-policy-resolve.ts:329-344 | Patching a normalized base and patching the raw base give the same result, rejection included, with the per-sub-key merge of autoFastForward. |
| `PolicyPatches.PatchMeaning` | packages/daemon-core/src/repo-mesh-policy-resolve.ts:323-344 | After an accepted patch a null key resolves to its default, an absent key as before, and any other key to the value the patch resolves to. |
| `PolicyPatches.FastForwardPatchMeaning` | packages/daemon-core/src/repo-mesh-policy-resolve.ts:143-159 | A patched autoFastForward object changes exactly the sub-keys it names, to their normalized values. |
| `PolicyPatches.PatchIsIdempotent` | packages/daemon-core/src/repo-mesh-policy-resolve.ts:329-344 | Applying an accepted patch twice is applying it once. |
| `PolicyPatches.MigrateIsIdempotent` | packages/daemon-core/src/repo-mesh-policy-resolve.ts:368-386 | A migrated block migrates to itself, rejected values included. |
| `PolicyPatches.MigrateIsNormalizeWhereAccepted` | packages/daemon-core/src/repo-mesh-policy-resolve.ts:368-373 | Where the normalizer accepts the block, the migration is the normalizer less a stored preserve. |
| `PolicyPatches.MigrateIsResolveNeutral` | packages/daemon-core/src/repo-mesh-policy-resolve.ts:349-386 | For every block, rejected values included, the resolved policy is unchanged apart from a stored sessionCleanupOnNodeRemove preserve. |
| `PolicyTable.StoringKeepsTheMeaning` | packages/daemon-core/src/repo-mesh-policy-resolve.ts:199-266 | For each of the twenty rows: storing keeps the meaning, a stored form stores as itself, and a form that is not written means what an unset key means. |
| `PolicyTable.StoredFormFromMeaning` | packages/daemon-core/src/repo-mesh-policy-resolve.ts:199-266 | For each row, two accepted values with the same meaning are stored alike. |
| `PolicyTable.MaxNodesLaw` | packages/daemon-core/src/repo-mesh-policy-resolve.ts:103-112 | An accepted node limit is stored as the number it resolves to, and stores as itself. |
| `PolicyTable.MaxParallelTasksLaw` | packages/daemon-core/src/repo-mesh-policy-resolve.ts:84-93 | The clamped parallel cap resolves to itself. |
| `PolicyTable.IdleTtlLaw` | packages/daemon-core/src/repo-mesh-policy-resolve.ts:121-131 | The resolved idle time resolves to itself, the disabled one included. |
| `PolicyTable.MaxIdleSessionsLaw` | packages/daemon-core/src/repo-mesh-policy-resolve.ts:242-242 | The clamped idle-session cap resolves to itself. |
| `PolicyTable.SchedulingStrategyLaw` | packages/daemon-core/src/repo-mesh-policy.ts:67-74 | The normalized strategy, aliases folded, normalizes to itself. |
| `PolicyTable.FastForwardIsPerSubKey` | packages/daemon-core/src/repo-mesh-policy-resolve.ts:143-159 | The resolved object is determined sub-key by sub-key by the stored one, and the overlaid default changes nothing. |
| `PolicyTable.FastForwardIsIdempotent` | packages/daemon-core/src/repo-mesh-policy-resolve.ts:232-237 | The resolved object resolves to itself. |
| `PolicyTable.NormalizedQuotaField` | packages/daemon-core/src/repo-mesh-policy.ts:671-689 | The stored quota object holds exactly the sub-keys that do not resolve to their default, and is absent exactly when there are none. |
| `PolicyTable.QuotaResolvesLikeRaw` | packages/daemon-core/src/repo-mesh-policy.ts:639-689 | Normalizing a quota object before resolving it is not observable. |
| `PolicyTable.QuotaStoredFromResolved` | packages/daemon-core/src/repo-mesh-policy.ts:671-689 | Quota values that resolve alike are stored alike. |
| `PolicyStore.ResolveMeshPolicy` | packages/daemon-core/src/repo-mesh-policy-resolve.ts:283-296 | The two loops emit, for every key, what the per-key specification says, and nothing else; what that is for each key is stated by the members of PolicyValues. |
| `PolicyValues.DefaultPolicy` | packages/daemon-core/src/repo-mesh-policy.ts:580-612 | An empty block, or anything that is no object, resolves to exactly the eighteen default values. |
| `PolicyValues.Switches` | packages/daemon-core/src/repo-mesh-policy-resolve.ts:200-243 | Four keys are on unless set to false, three are off unless set to true. |
| `PolicyValues.ParallelTasks` | packages/daemon-core/src/repo-mesh-policy-resolve.ts:84-93 | The whole part of the given number, held between 1 and 64; 64 if unset or not a number. |
| `PolicyValues.Nodes` | packages/daemon-core/src/repo-mesh-policy-resolve.ts:103-112 | The whole part of a number or numeric string, held between 1 and 64; 32 for anything else. |
| `PolicyValues.IdleTtl` | packages/daemon-core/src/repo-mesh-policy-resolve.ts:121-131 | Minutes between 5 and 10080, 0 if disabled or not positive, 30 if unset or not a number. |
| `PolicyValues.IdleSessionsAndRetries` | packages/daemon-core/src/repo-mesh-policy-resolve.ts:238-242 | The idle-session cap between 0 and 100, else 2; any finite number of retries, else 1. |
| `PolicyValues.Strategy` | packages/daemon-core/src/repo-mesh-policy.ts:67-74 | The three load-spreading names mean fitness, priority_only stays, everything else means first_eligible. |
| `PolicyValues.Choices` | packages/daemon-core/src/repo-mesh-policy-resolve.ts:218-262 | Visibility, idle push and dependency failure: the one other legal value, else the default. |
| `PolicyValues.WithoutDefault` | packages/daemon-core/src/repo-mesh-policy-resolve.ts:229-265 | Session cleanup and worktree directory are shown only if set to something legal. |
| `PolicyValues.FastForward` | packages/daemon-core/src/repo-mesh-policy-resolve.ts:143-159 | The five sub-keys of the fast-forward object, each from what was given. |
| `PolicyValues.Quota` | packages/daemon-core/src/repo-mesh-policy.ts:639-662 | The four sub-keys of the quota object, each as given or by default. |
| `PolicyValues.OtherKeys` | packages/daemon-core/src/repo-mesh-policy-resolve.ts:286-289 | Retired and inherited names are never shown; any other unknown key is shown as it was set. |
| `PolicyValues.OtherKeysAreStored` | packages/daemon-core/src/repo-mesh-policy-resolve.ts:308-314 | Writing keeps unknown keys as they are and drops the retired ones. |
| `PolicyValues.OnlyObjectsCount` | packages/daemon-core/src/repo-mesh-policy-resolve.ts:268-270 | Anything but an object resolves to the defaults and is stored as nothing. |
| `PolicyStore.NormalizePolicyOverrides` | packages/daemon-core/src/repo-mesh-policy-resolve.ts:306-321 | The loop keeps exactly the entries the per-key specification keeps, or rejects if any entry is rejected. |
| `PolicyStore.PatchRecord` | packages/daemon-core/src/repo-mesh-policy-resolve.ts:330-342 | The loop sets, merges, clears and leaves alone exactly the keys the patch says. |
| `PolicyStore.MergePolicyOverrides` | packages/daemon-core/src/repo-mesh-policy-resolve.ts:329-344 | The normalized patched record, or its rejection. |
| `PolicyStore.MigratePolicyToSparseOverrides` | packages/daemon-core/src/repo-mesh-policy-resolve.ts:368-386 | Never throws; both paths compute the per-key migration. |
| `PolicyStore.SingleEntry` | packages/daemon-core/src/repo-mesh-policy-resolve.ts:377-382 | What normalizing one entry alone returns, as the migration relies on. |
| `SlotCaps.ResolveProviderMaxParallel` | packages/daemon-core/src/repo-mesh-policy-resolve.ts:540-557 | The loop adds up the declared caps of the provider, keeping uncapped apart from zero. |
| `SlotCaps.ResolveSlotMaxParallel` | packages/daemon-core/src/repo-mesh-policy-resolve.ts:595-618 | The loop adds up the declared caps of the (provider, model) slot. |
| `SlotCaps.PoolOneMore` | packages/daemon-core/src/repo-mesh-policy-resolve.ts:547-556 | One more slot: the pool gains the whole part of its cap if it names the provider, up to case and space, and declares one that is not negative; otherwise it stays, and no slot means no cap. |
| `SlotCaps.SlotCapOneMore` | packages/daemon-core/src/repo-mesh-policy-resolve.ts:605-617 | The same for the cap of a (provider, model) slot and the slots the model matches. |
| `SlotCaps.SlotCapWithinPool` | packages/daemon-core/src/repo-mesh-policy-resolve.ts:540-618 | A slot cap never exceeds the provider pool, and an uncapped pool has only uncapped slots. |
| `SlotCaps.CapsIgnoreOrder` | packages/daemon-core/src/repo-mesh-policy-resolve.ts:540-618 | Reordering the slots changes neither pool nor slot cap. |
| `SlotCaps.SlotCapsAddUpToPool` | packages/daemon-core/src/repo-mesh-policy-resolve.ts:540-618 | If the models match each of the provider slots exactly once, their slot caps add up to the pool, uncapped included. |
| `Utf8.EncodedTextDecodes` | packages/ghostty-vt-node/src/ghostty_bridge.c:178-204 | Whatever 32-bit values are appended, the bytes are well-formed under the grammar of section 4 of RFC 3629 and decode to the same sequence, with surrogates and values above 0x10FFFF replaced by U+FFFD. |
| `Utf8.DecodedTextEncodes` | packages/ghostty-vt-node/src/ghostty_bridge.c:178-204 | Every well-formed byte sequence is the encoding of what it decodes to. |
| `Utf8.DecodedTextIsSanitized` | packages/ghostty-vt-node/src/ghostty_bridge.c:179-180 | Well-formed bytes decode to values the sanitizer leaves alone. |
| `Utf8.EncodeIsOneChar` | packages/ghostty-vt-node/src/ghostty_bridge.c:184-202 | One append writes exactly one UTF8-char carrying the sanitized value, whatever follows. |
| `Utf8.CharIsEncoded` | packages/ghostty-vt-node/src/ghostty_bridge.c:184-202 | Every UTF8-char is what appending its scalar value writes. |
| `Utf8.ShiftsAndMasks` | packages/ghostty-vt-node/src/ghostty_bridge.c:184-202 | The shifts and masks of the encoder are the quotients and remainders of the model, on 32-bit values. |
| `ByteBuffers.GrowTo` | packages/ghostty-vt-node/src/ghostty_bridge.c:169-170 | The doubling loop terminates within size_t with a capacity that is large enough and at most twice what was needed. |
| `ByteBuffers.ByteBuffer.Reserve` | packages/ghostty-vt-node/src/ghostty_bridge.c:167-176 | The contents stay, length never exceeds capacity, and a failed reallocation changes nothing. |
| `ByteBuffers.ByteBuffer.AppendCodepoint` | packages/ghostty-vt-node/src/ghostty_bridge.c:178-204 | Appends exactly the encoding of the code point, or nothing for lack of memory; the heap changes by the buffer block only. |
| `RowReader.RowWriter.AppendGraphemes` | packages/ghostty-vt-node/src/ghostty_bridge.c:313-320 | A cluster goes completely into the row text and, if wanted, into the cell text. |
| `RowReader.RowWriter.GrowScratch` | packages/ghostty-vt-node/src/ghostty_bridge.c:283-294 | The grapheme buffer grows to the reported length; the old one is freed. |
| `RowReader.RowWriter.FetchGraphemes` | packages/ghostty-vt-node/src/ghostty_bridge.c:271-295 | On success the whole cluster of the cell, never a truncated one. |
| `RowReader.RowWriter.AddCell` | packages/ghostty-vt-node/src/ghostty_bridge.c:270-323 | One turn of the column loop extends row text, cell text, table and cut by exactly that cell, and fails only if a call under it failed. |
| `RowReader.RowWriter.Abandon` | packages/ghostty-vt-node/src/ghostty_bridge.c:334-340 | The failure path gives back everything the row allocated. |
| `RowReader.Finish` | packages/ghostty-vt-node/src/ghostty_bridge.c:325-332 | The success path hands over exactly the three blocks of the row and frees the grapheme buffer. |
| `RowReader.ReadRow` | packages/ghostty-vt-node/src/ghostty_bridge.c:228-341 | The read succeeds if and only if no call under it failed and the row has the columns; it then has gained exactly the distinct blocks of a row that copies the grid row, and otherwise the heap is as before. |
| `RowLaws.SlicesTileIff` | packages/ghostty-vt-node/src/ghostty_bridge.c:298-322 | The cell slices tile the cell text in order without gaps if and only if every offset and length fits in 32 bits. |
| `RowLaws.HugeClusterDoesNotTile` | packages/ghostty-vt-node/src/ghostty_bridge.c:298-322 | A cell with 2^32 code points or more, wherever it is in the row, leaves the table without a tiling. |
| `RowLaws.HugeClusterExists` | packages/ghostty-vt-node/src/ghostty_bridge.c:322-322 | Such a row and its table: one cell, whose stored length is 0 although its text is not empty. |
| `RowLaws.SliceIsCellText` | packages/ghostty-vt-node/src/ghostty_bridge.c:298-322 | The slice of a cell is the text of that cell. |
| `RowLaws.RowTextFromTable` | packages/ghostty-vt-node/src/ghostty_bridge.c:224-332 | The row text is rebuilt from table and cell text: a space for an empty cell, nothing for a spacer, cut after the last cell with content. |
| `RowLaws.TableRebuildsText` | packages/ghostty-vt-node/src/ghostty_bridge.c:302-320 | The same for every prefix of the row, before the cut. |
| `RowLaws.CutAfterLastContent` | packages/ghostty-vt-node/src/ghostty_bridge.c:321-327 | The last cell kept has content and no cell cut off has. |
| `RowLaws.RowTextDecodes` | packages/ghostty-vt-node/src/ghostty_bridge.c:224-332 | The row text is well-formed UTF-8 and decodes to what the cells up to the cut show. |
| `Viewports.GetViewport` | packages/ghostty-vt-node/src/ghostty_bridge.c:360-430 | Succeeds if and only if no call under it failed and the terminal has the requested rows (none, the cursor row, or all); the outstanding blocks are then exactly those of the viewport, all distinct, it carries what the library reports, and its lines copy the rows; otherwise nothing is left allocated. |
| `Viewports.GetLines` | packages/ghostty-vt-node/src/ghostty_bridge.c:405-422 | The row loop, up to the first failure: what was read so far is owned by the viewport. |
| `Viewports.FreeViewport` | packages/ghostty-vt-node/src/ghostty_bridge.c:349-358 | Frees every block of the viewport, each exactly once and while allocated, and nothing else. |
| `Viewports.FreeLines` | packages/ghostty-vt-node/src/ghostty_bridge.c:351-356 | Frees the blocks of the counted rows. |
| `Viewports.ReleaseRow` | packages/ghostty-vt-node/src/ghostty_bridge.c:216-222 | Frees the three blocks of a row. |
| `Viewports.ReadSnapshot` | packages/ghostty-vt-node/src/addon.cc:312-368 | Read, reject an inconsistent scrollbar, copy out, free: succeeds if and only if no call failed, the rows exist and the scrollbar fits, spelled out; the heap ends as it began, the derived origins never go below zero and add up, the cursor has a viewport row exactly if it is in view, and each line has the number, text, wrap flags and cells of its row. |
| `Viewports.TableStaysInside` | packages/ghostty-vt-node/src/addon.cc:240-252 | Truncated or not, no cell slice reaches beyond the cell text. |
| `LimiterRuns.DecisionsMatchFullHistory` | packages/daemon-standalone/src/standalone-http.ts:139-169 | Over every run with a non-decreasing clock, the decisions are those of a limiter that remembers every admitted attempt, apart from refusals at the tracking cap. |
| `LimiterRuns.DecisionsMatchSimpleLimiter` | packages/daemon-standalone/src/standalone-http.ts:139-169 | Over every such run with at most 10,000 distinct keys, the decisions are those of a limiter that has nothing but its log, limit and window. |
| `LimiterRuns.NoWindowOverLimit` | packages/daemon-standalone/src/standalone-http.ts:139-169 | The limiter admits no key more than limit times in any window, wherever it starts. |
| `LimiterRuns.TableStaysBounded` | packages/daemon-standalone/src/standalone-http.ts:150-154 | At most 10,000 keys are tracked, whatever the run. |
| `LimiterRuns.NoRoomIff` | packages/daemon-standalone/src/standalone-http.ts:150-154 | A key is refused for lack of room if and only if it is not tracked and ten thousand keys have an admitted attempt in the window; the hint is then a whole window. |
| `LimiterRuns.TrackedAfterHit` | packages/daemon-standalone/src/standalone-http.ts:150-168 | Exactly which keys are tracked after an attempt: from 256 on, an unknown key leaves only the active ones. |
| `LimiterRuns.RetryAfterIsExact` | packages/daemon-standalone/src/standalone-http.ts:148-162 | For a limit of at least 1: every attempt of the key before the announced instant is refused, however many there are and whatever other keys do, and its first attempt from that instant on is admitted if and only if it is not refused at the cap, as no tracked key is. |
| `LimiterRuns.RetryHintIff` | packages/daemon-standalone/src/standalone-http.ts:155-158 | After any run, a refusal over the limit carries a retry hint if and only if the limit is at least 1; below that every attempt is refused without one. |
| `LimiterRuns.StepAgrees` | packages/daemon-standalone/src/standalone-http.ts:148-162 | One attempt: pruned stamps and full history decide alike and still agree on every later window. |
| `JoinLimiter.MeshJoinRateLimiter.constructor` | packages/daemon-standalone/src/standalone-http.ts:142-145 | Starts empty, with 5 attempts per 60,000 ms by default. |
| `JoinLimiter.MeshJoinRateLimiter.HitAt` | packages/daemon-standalone/src/standalone-http.ts:148-162 | The whole new table and the decision, for all four exits. |
| `JoinLimiter.MeshJoinRateLimiter.Prune` | packages/daemon-standalone/src/standalone-http.ts:164-168 | Drops exactly the keys without a stamp in the window. |
| `OwnerAuth.FalseGuardStaysFalse` | packages/daemon-standalone/src/standalone-http.ts:324-382 | Over every run, a captured guard that once evaluated to false never evaluates to true again. |
| `OwnerAuth.AuthChangeRevokesEarlierGuards` | packages/daemon-standalone/src/standalone-http.ts:519-603 | Every configure, logout, successful login and successful password change or clear falsifies every earlier guard for good. |
| `OwnerAuth.EveryChangeAdvancesTheEpoch` | packages/daemon-standalone/src/standalone-http.ts:519-603 | A step that keeps the epoch changes no credential and no session that has not expired. |
| `OwnerAuth.OwnerAndNoAuthExclude` | packages/daemon-standalone/src/standalone-http.ts:324-382 | An owner guard and a no-auth guard never hold in the same state. |
| `OwnerAuth.CapturedOwnerGuardHoldsIff` | packages/daemon-standalone/src/standalone-http.ts:345-382 | In any state, a captured owner guard holds at once if and only if it rests on the token or the password record has neither an empty hash nor an empty salt. |
| `OwnerAuth.DaemonGuardsHoldAtCapture` | packages/daemon-standalone/src/index.ts:339-339 | Configured once at boot with any record, and run with non-empty hashes and salts from then on, the daemon captures only owner guards that hold at once. |
| `OwnerAuth.SecondConfigurationBreaksGuards` | packages/daemon-standalone/src/standalone-http.ts:219-223 | The failing run: an incomplete record configured while a session lives yields an owner guard that is false at once. |
| `OwnerAuth.OwnerGuardLastsExactly` | packages/daemon-standalone/src/standalone-http.ts:345-382 | An owner guard that holds at capture holds after any run if and only if the epoch is unchanged and, for a password session, the expiry it had at capture has not come. |
| `OwnerAuth.CapturedNoAuthGuardHolds` | packages/daemon-standalone/src/standalone-http.ts:324-330 | A captured no-auth guard holds at once. |
| `OwnerAuth.AtMostOneSession` | packages/daemon-standalone/src/standalone-http.ts:532-533 | Over every run the store holds at most one session. |
| `OwnerLogins.LoginIffPassword` | packages/daemon-standalone/src/standalone-auth.ts:85-90 | After a password has been set, over any run that does not change it or configure anew, exactly that password logs in, leaving one session for thirty days; any other attempt changes nothing. |
| `OwnerLogins.ChangeNeedsPassword` | packages/daemon-standalone/src/standalone-http.ts:571-602 | Over the same runs only that password changes or clears the password; a clear leaves neither password nor session. |
| `OwnerLogins.WithoutPassword` | packages/daemon-standalone/src/standalone-http.ts:519-602 | Without a password nobody logs in, and anyone can set one of at least four characters. |
| `OwnerLogins.LogoutEndsSession` | packages/daemon-standalone/src/standalone-http.ts:545-547 | A logout removes exactly the named session and starts a new epoch. |
| `OwnerLogins.LoggedOutStaysOut` | packages/daemon-standalone/src/standalone-auth.ts:156-184 | A session that is gone never comes back as long as no event opens one under its id. |
| `OwnerLogins.LookupDropsOnlyExpired` | packages/daemon-standalone/src/standalone-auth.ts:165-174 | Looking a session up drops it if it has expired and touches nothing else. |
| `OwnerLogins.AuthenticatedIff` | packages/daemon-standalone/src/standalone-auth.ts:186-205 | A request is authenticated exactly without any credential configured, with the token, or with an unexpired session under a password. |
| `OwnerLogins.OwnerCaptureIff` | packages/daemon-standalone/src/standalone-http.ts:345-360 | An owner guard is captured for exactly the requests with the token or a live session and without a worker credential header. |
| `OwnerLogins.NoAuthCaptureIff` | packages/daemon-standalone/src/standalone-http.ts:324-330 | A no-auth guard is captured exactly on a daemon without credentials, for the two kinds of verb, without credential headers, from an allowed origin, and for approvals with an Origin. |
| `OwnerLogins.NoAuthGuardLastsExactly` | packages/daemon-standalone/src/standalone-http.ts:328-329 | A no-auth guard lasts exactly as long as the epoch. |
| `OwnerLogins.ScopeIff` | packages/daemon-standalone/src/standalone-http.ts:251-271 | Exactly when a credential header has coordinator or worker scope. |
| `OwnerLogins.ConfiguredTokenAuthenticates` | packages/daemon-standalone/src/standalone-http.ts:219-223 | A configured token authenticates until the next configuration, whatever becomes of password and sessions. |
| `OwnerAuth.StandaloneSessionStore.Create` | packages/daemon-standalone/src/standalone-auth.ts:159-163 | Adds one session with its expiry. |
| `OwnerAuth.StandaloneSessionStore.Has` | packages/daemon-standalone/src/standalone-auth.ts:165-174 | Live exactly if known and not expired; an expired entry is dropped. |
| `OwnerAuth.StandaloneAuth.ConfigureAuth` | packages/daemon-standalone/src/standalone-http.ts:219-223 | The configure step of the state machine. |
| `OwnerAuth.StandaloneAuth.Login` | packages/daemon-standalone/src/standalone-http.ts:526-534 | The login step: one new session and a new epoch, or no change, and which of the two. |
| `OwnerAuth.StandaloneAuth.Logout` | packages/daemon-standalone/src/standalone-http.ts:545-547 | The logout step. |
| `OwnerAuth.StandaloneAuth.ChangePassword` | packages/daemon-standalone/src/standalone-http.ts:566-599 | The password step: clear, replace or reject, a failing file write included. |
| `OwnerAuth.StandaloneAuth.IsRequestAuthenticated` | packages/daemon-standalone/src/standalone-auth.ts:186-205 | Authenticated exactly without any credential configured, with the token, or with a live session; an expired session is dropped exactly if the session had to decide. |
| `OwnerAuth.StandaloneAuth.Evaluate` | packages/daemon-standalone/src/standalone-http.ts:365-381 | Calling a captured guard answers what the guard predicate says of the present state. |
| `DaemonIds.ExpandDaemonIdForms` | packages/mesh-shared/src/daemon-normalize.ts:174-195 | The two passes compute the specified expansion. |
| `DaemonIds.ThreeSpellings` | packages/mesh-shared/src/daemon-normalize.ts:103-195 | The bare, daemon_ and standalone_ spellings of a mach_ id have the bare id as core, the daemon_ spelling as canonical form, and expand to all three. |
| `DaemonIds.OtherIdsStayThemselves` | packages/mesh-shared/src/daemon-normalize.ts:108-151 | An id without any of the three prefixes, in whatever case, is its own core and canonical form and has no derived spelling. |
| `DaemonIds.PrefixCaseDoesNotMatter` | packages/mesh-shared/src/daemon-normalize.ts:111-118 | A daemon prefix counts in any case, and space behind it does not. |
| `DaemonIds.CanonicalIsIdempotentIff` | packages/mesh-shared/src/daemon-normalize.ts:146-151 | Canonicalizing twice is canonicalizing once if and only if there is no core, or the core carries no second daemon prefix or already reads daemon_mach_. |
| `DaemonIds.CanonicalIsNotIdempotent` | packages/mesh-shared/src/daemon-normalize.ts:142-151 | For every machine, an id the documentation promises idempotence for and that needs two applications. |
| `DaemonIds.SameCanonicalIff` | packages/mesh-shared/src/daemon-normalize.ts:146-160 | Exactly which ids share a canonical form, ids without a core included. |
| `DaemonIds.CanonicalDecidesEquivalence` | packages/mesh-shared/src/daemon-normalize.ts:146-160 | For cores without a second prefix, equal canonical forms are equivalent ids and conversely. |
| `DaemonIds.ExpansionContents` | packages/mesh-shared/src/daemon-normalize.ts:174-195 | The expansion is duplicate-free and holds exactly the listed ids and their derived spellings, the listed ones first. |
| `DaemonIds.ExpansionKeepsInputOrder` | packages/mesh-shared/src/daemon-normalize.ts:163-168 | The listed ids stand in the order of their first occurrences, so the first element is the first id that is not blank. |
| `DaemonIds.ExpansionMatchesEquivalence` | packages/mesh-shared/src/daemon-normalize.ts:162-195 | Any spelling of a machine is in the expansion of a list if and only if some listed id is equivalent to it. |
| `DaemonIds.CanonicalIsMatchedIffEquivalent` | packages/mesh-shared/src/daemon-normalize.ts:162-195 | The same for the canonical form of a machine id. |
| `DaemonIds.ExpansionStaysWithinItsMachines` | packages/mesh-shared/src/daemon-normalize.ts:170-172 | Every member of the expansion has the core of a listed id. |
| `DaemonIds.ExpansionIsIdempotent` | packages/mesh-shared/src/daemon-normalize.ts:174-195 | Expanding an expansion gives the same sequence. |
| `DaemonIds.CoreIsTrimmed` | packages/mesh-shared/src/daemon-normalize.ts:108-122 | A core is trimmed and non-blank, and its machine prefix is lower-case. |
| `Reachability.ReachableModules` | packages/web-standalone/vite.config.ts:37-49 | Terminates on every finite graph, cycles included, with exactly the modules a chain of static imports from an entry reaches. |
| `Reachability.Entries` | packages/web-standalone/vite.config.ts:38-41 | The initial stack holds exactly the entries. |
| `Reachability.PushImports` | packages/web-standalone/vite.config.ts:46-48 | Pushing the unvisited imports keeps the worklist invariant. |
| `Reachability.StaticReachability.IsStaticallyReachable` | packages/web-standalone/vite.config.ts:31-53 | The answer is reachability in the given graph, whether cached or fresh, and a cached set is not recomputed. |
| `Reachability.ClosedSetHoldsChain` | packages/web-standalone/vite.config.ts:42-49 | A set that holds the entries and is closed under static imports holds every reachable module. |

## Left out

- Cryptography and randomness: SHA-256 is a free constructor, scrypt an arbitrary function (injective in the password where a result needs it), comparison of secrets is equality, and fresh secrets, session ids and salts are inputs.
- SQLite behind the bind store: rows are listed in insertion order, a call either takes full effect or throws without effect.
- Store failures are fixed per step and row: a deletion that throws at first and succeeds when the same mint tries it again over the listed rows is not expressible.
- Binds without a persistence port: such a registry is modelled as one whose every store call throws.
- The NUL-joined session key: the index is keyed by the pair, which is the same index for mesh ids without NUL (`SessionKeyIsInjective`); a liveness probe is a set of session ids per step.
- Non-string arguments of the registry, and an id that trims to nothing being kept as an empty string instead of an absent field.
- Numbers of a policy are exact reals with the three non-finite values: no rounding and no negative zero.
- Policy records are maps: property order, error texts and the key `__proto__` are not modelled; the comparison through `JSON.stringify` is structural equality, which agrees on everything the table emits.
- Objects with their own `toString` or `valueOf`, on which `Number(...)` can throw.
- PolicyTable.StoringKeepsTheMeaning: speaks of the twenty known keys; unknown keys are stored and resolved verbatim, which the laws over whole blocks cover.
- The other resolvers of the policy file (read-only and light caps, delegated auto-approve, worktree cleanup): they would only add easy members.
- Lower-casing of daemon ids is ASCII only, which loses nothing: no other character lower-cases to a letter of the three prefixes. For provider names it is an arbitrary function.
- ByteBuffers.ByteBuffer.Reserve: a reallocation always returns another block, and a request above half the address space is refused by the allocator, so `size_t` never wraps.
- RowReader.ReadRow: the cell table is a sequence filled in order rather than a zeroed array, and consecutive library calls that can only fail are one call. Block sizes other than those of the byte buffers are not tracked.
- Viewports.GetViewport: the checks of null or out-of-range arguments are not modelled, nor is the release of a row clearing its fields.
- Viewports.ReadSnapshot: a cell has its width class, not the column width and name derived from it; option parsing is left out. Cell texts are promised where the cell text can be addressed in 32 bits.
- The remaining bridge functions (creation, input, resizing, formatting, the single-row read) and the terminal library itself.
- JoinLimiter.MeshJoinRateLimiter.HitAt: times and the limit are integers; a fractional limit acts in the source as the next integer above it.
- OwnerAuth.StandaloneAuth.ChangePassword: the checks before the body is awaited only keep a step from happening, so the model allows the step without them; the same holds for login.
- HTTP routing, cookies, CORS and host checks, and reporting an epoch change to listeners: a request is the credentials and flags it carries.
- DaemonIds.ExpandDaemonIdForms: a single id or none is a list of that many ids, and the set that mirrors the output is the output itself.
- Reachability.StaticReachability.IsStaticallyReachable: the module ids belong to the lookup's graph, and that graph does not change while it is cached.
- Mesh links, relays, transports, installers, launchers, dashboards, providers and the mesh queue: not part of this model.
