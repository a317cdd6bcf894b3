# A model of the mailbox service's concurrent row state

The service keeps Microsoft mailboxes, and addresses of outside providers, in database tables and hands them out
to clients. Many workers change the same rows at once, each in short transactions, with network calls in between.
This project models those transactions in Dafny and proves what every interleaving of them keeps. Each short
transaction is one atomic step, time is a counter that only grows, and whatever happens outside a transaction (an
answer of the token endpoint, a remote finalizer, another writer) is an event of its own.

Code that updates rows in place is modelled by classes whose methods are proved equal to specification functions
on the row values; the lemmas about runs speak of those functions. Loops of the program are loops here.

| file | part of the program |
|---|---|
| `TokenRepository.dfy` | the row operations of refresh-token claims, and the two competing writers |
| `TokenProtocol.dfy` | all writers of one mailbox interleaved, over whole runs |
| `TokenOutcomes.dfy` | what single events and calls achieve, column by column |
| `EnsureAccessToken.dfy` | one call that needs an access token: cache, claim, exchange, finalize, single retry |
| `AliasAddress.dfy` | plus aliases and what an address resolves to |
| `LeaseOccupancy.dfy`, `LeaseService.dfy` | leases, their claim table and the site register, on values and in place |
| `LeaseSafety.dfy`, `LeaseRuns.dfy` | when leasing succeeds, and what every run keeps |
| `LeaseOutcomes.dfy` | what leasing means for the parties: what was asked for, whose lease it is, who may end it |
| `AddressClash.dfy` | leasing in an inventory whose primary addresses may look like aliases |
| `MailboxAdmin.dfy` | deletion by identifier and the chunked sweep of invalid mailboxes |
| `ProviderTenancy.dfy`, `TenancyRuns.dfy`, `TenancyOutcomes.dfy` | provider resources: generation fencing, and who may claim next |
| `SchedulerLease.dfy` | job leases with fencing tokens |
| `ProxyHealth.dfy`, `ProxySelection.dfy` | egress proxies: health, sticky binding, selection, failover |
| `CodeMatcher.dfy` | scanners for verification codes |
| `Utf8Budget.dfy`, `PollBudget.dfy` | byte budgets and the polling loop |
| `ImportLine.dfy`, `MailboxImport.dfy`, `ExportRoundTrip.dfy` | credential lines, export and import, and when a file restores its records |
| `Text.dfy`, `Wrappers.dfy` | strings, optional and fallible values |

## What the proofs found

- The single retry of `ensure_access_token` after a lost race is stopped by the call's own claim until that claim
  runs out, because a version conflict leaves the claim in place. `RetryBlockedByOwnClaim` proves it whatever other
  writers do after the answer; `SecondExchangeOnlyAfterDeadline` concludes that a second exchange is never made
  before the deadline of the claim under which the first one was made.
- After its own exchange a call re-reads the row. If an import replaces the credentials in between, the row stores
  no access token and the call returns the old one together with the new version. `RefreshedPairIsBoundIff` says that
  the returned pair is bound exactly if the re-read row still stores an access token (in runs without the swap that
  keeps the cache, which the service's flows do not use); `RefreshedPairCanBeUnbound` gives an input.
- The completion check reads claim and version but not the claim's deadline, so a late worker that nobody
  displaced still finishes; `LateWorkerCompletesIff` gives the exact condition.
- The bare compare-and-swap helper leaves an invalid mailbox invalid while it stores a new token.
  `InvalidRowStoresRejectedToken` therefore holds as long as that helper, which the service's own flows do not call, is
  not accepted on an invalid row.
- A primary address may contain `+`, and then equal a claimed alias of another mailbox. The upsert purges expired claims
  of its own mailbox only, so such a claim blocks the address whether it is live or expired:
  `PrimaryRefusedIffClaimedElsewhere` and, for every request and any inventory, `AcquireRefusedIff`. Reacquiring does
  not catch the error (`PrimaryBreaksIffClaimedElsewhere`, `ReacquireBreaksIff`). `PrimaryClashIsReached` and
  `ReacquireClashIsReached` reach both by transactions.
- Reacquiring looks for an exact primary address before it strips a plus suffix, and the caller's history is kept by address.
  So a client that comes back for an alias can be given another mailbox, on which it never had a lease:
  `AliasLeadsToStrangersMailbox` reaches this by transactions. `AliasResolvesBackIff` says exactly when an alias leads
  back to its mailbox; among plain primaries it always does (`ReacquireReturnsItsMailbox`).
- Mutual exclusion and the claim index need nothing of this: they hold over every run in any inventory
  (`LeaseRuns.RunKeepsInv`, `NoTwoExclusiveLeases`, `ClaimsIndexActiveLeases`). Only the conditions for success are
  stated for plain primaries: lower case, no `+`.
- The remote release of an SMSBower resource that fails is final: the resource stays in cooldown forever
  (`FailureEndsCirculation`).
- A scheduler handle that was released can still be renewed until someone else takes the job
  (`HandleWorksIffNeverTakenOver`).
- Choosing a proxy clears its cooldown but not its failure count, so with the same threshold the next accepted
  failure cools it down again (`NextFailureAfterReuseCoolsDown`).
- The labelled scan of a subject overlooks a labelled code that shares a half with the code before it
  (`LabelledPairCanBeMissed`); `LabelledPairIsFoundIff` gives the exact condition.
- Truncation also drops a multi-byte character that ends exactly at the budget (`Keeps` in `Utf8Budget.dfy`).

## Model

| member | source | states |
|---|---|---|
| TokenRepository.Mailbox.ClaimTokenRefresh | mailbox_service/token_repository.py:199-278 | installs a claim in place, or refuses an invalid, incomplete, claimed or leased mailbox and writes nothing |
| TokenRepository.Mailbox.CompleteTokenRefresh | mailbox_service/token_repository.py:290-377 | the whole new row and the reported version, with and without rotation, matched or not |
| TokenRepository.Mailbox.FailTokenRefreshInvalidGrant | mailbox_service/token_repository.py:410-430 | marks the row invalid only under claim and version |
| TokenRepository.Mailbox.ReleaseTokenRefreshClaim | mailbox_service/token_repository.py:433-450 | clears the claim columns only under the claim |
| TokenRepository.Mailbox.CompareAndSwapRefreshToken | mailbox_service/token_repository.py:66-107 | replaces the token only under the expected version |
| TokenRepository.Mailbox.UpdateRefreshToken | mailbox_service/lease_service.py:1397-1448 | the lease holder's write-back: refusals in order, unchanged token, or new token with the cached one cleared |
| TokenRepository.Mailbox.ReplaceByImport | mailbox_service/main.py:2522-2560 | the import's replace: everything but an in-flight claim |
| TokenProtocol.VersionDeterminesRefreshToken | mailbox_service/token_repository.py:290-377 | over any run the version never decreases and determines the stored refresh token |
| TokenProtocol.VersionCountsStores | mailbox_service/lease_service.py:1418-1434 | the final version is the initial one plus the number of refresh-token writes of all kinds |
| TokenProtocol.RunKeepsInv | mailbox_service/token_repository.py:199-450 | the protocol invariant under every interleaving |
| TokenProtocol.UsableTokenHasCurrentOrigin | mailbox_service/token_service.py:1328-1340 | a cached token that passes the usable test came from exchanging, or from the exchange that issued, the stored refresh token |
| TokenProtocol.FinalizerWritesIffHeld | mailbox_service/token_repository.py:310-377 | a finalizer writes iff the row carries its claim and (unless it only releases) its version; otherwise nothing changes |
| TokenProtocol.AtMostOneFinalizer | mailbox_service/token_repository.py:290-450 | in any run at most one finalizer of a claim has an effect |
| TokenProtocol.DisplacedOnlyAfterExpiry | mailbox_service/token_repository.py:222-233 | one claim replaces another only after its deadline |
| TokenProtocol.CompletionResultIsSound | mailbox_service/token_repository.py:380-407 | a result other than None vouches for a bound access token of known origin and no claim; a holder gets its own token stored |
| TokenProtocol.InvalidatedOnlyByRejectionOfStoredToken | mailbox_service/token_service.py:474-503 | a mailbox turns invalid only on a rejection of the token stored at that step |
| TokenProtocol.InvalidRowStoresRejectedToken | mailbox_service/token_repository.py:410-430 | in every run in which no swap is accepted on an invalid row, an invalid row stores a rejected token |
| TokenProtocol.WriteBackReplacesWhatWasDelivered | mailbox_service/lease_service.py:1397-1448 | an accepted write-back replaced exactly the token delivered with the expected version |
| TokenProtocol.LateWorkerCompletesIff | mailbox_service/token_repository.py:310-377 | a worker finishes with its own token, expired or not, iff no event since has displaced its claim or moved the version; otherwise it changes nothing |
| TokenProtocol.ClaimStandsUntilDeadline | mailbox_service/token_repository.py:222-233 | before its deadline no run displaces a claim, and once the version has moved under the answer its own worker cannot give it up either |
| TokenOutcomes.CompletionStoresWhatWasIssued | mailbox_service/token_repository.py:310-377 | a held completion stores the recorded answer: the access token with its expiry, and the refresh token exactly if a new, different one was issued; only then the version moves |
| TokenOutcomes.RefreshEndToEnd | mailbox_service/token_service.py:474-612 | claim, exchange and completion of a claimable mailbox with time passing in between: the row it ends with |
| TokenOutcomes.RepeatedCompletionAnswersTheSame | mailbox_service/token_repository.py:380-407 | a completion reported twice writes once and is answered the same |
| TokenOutcomes.InvalidRests | mailbox_service/token_repository.py:199-278 | over any run an invalid mailbox is not exchanged and stays invalid until its credentials are replaced |
| TokenOutcomes.ReplacementRevives | mailbox_service/main.py:2530-2560 | a replacement makes the mailbox claimable at once with the new credentials, unless a claim lives |
| TokenOutcomes.HolderMayWriteBack | mailbox_service/lease_service.py:1397-1448 | a lease holder can write back after any run in which nobody stored a token, while the mailbox is active |
| EnsureAccessToken.AtMostTwoExchanges | mailbox_service/token_service.py:613-629 | one exchange per pass, two in all |
| EnsureAccessToken.CachedOutcomeIsSound | mailbox_service/token_service.py:703-741 | a token returned from the cache is stored, usable, of the returned version and of current origin |
| EnsureAccessToken.LostRaceKeepsOwnClaim | mailbox_service/token_repository.py:334-377 | losing on the version alone leaves the loser's claim in the row |
| EnsureAccessToken.RetryBlockedByOwnClaim | mailbox_service/token_service.py:613-629 | after a race lost on the version, whatever others do, the retry makes no exchange before the deadline of the call's own claim |
| EnsureAccessToken.SecondExchangeOnlyAfterDeadline | mailbox_service/token_service.py:613-629 | a second exchange is made only after the deadline of the claim under which the first one was made |
| EnsureAccessToken.CacheStaysBound | mailbox_service/token_service.py:1328-1340 | without a refresh-token write a bound pair stays bound |
| EnsureAccessToken.CacheStaysBoundOrEmpty | mailbox_service/lease_service.py:1418-1434 | over any run a stored access token belongs to the stored version, unless the swap that keeps the cache is used |
| EnsureAccessToken.RefreshedPairIsBoundIff | mailbox_service/token_service.py:640-650 | the returned pair is bound iff the re-read row still stores an access token, and then it is of the stored refresh token |
| EnsureAccessToken.PairIsBoundWithoutLaterStore | mailbox_service/token_service.py:632-689 | in particular if nobody stored a refresh token after the finalizing transaction |
| EnsureAccessToken.RefreshedPairCanBeUnbound | mailbox_service/token_service.py:632-689 | an input on which it is not |
| TokenOutcomes.FreshCacheIsServed | mailbox_service/token_service.py:255-300 | a fresh cache is served without an exchange |
| TokenOutcomes.CacheFilledMeanwhileIsServed | mailbox_service/token_service.py:255-330 | so is one that somebody else filled before the claiming transaction |
| TokenOutcomes.CachedOutcomeIsFresh | mailbox_service/token_service.py:703-741 | whatever is returned from the cache is of the stored version, outlives the margin and fits the channel |
| TokenOutcomes.BusyCallWaits | mailbox_service/token_service.py:255-330 | while a claim lives a call makes no exchange and is served by the winner's token if it is fresh |
| TokenOutcomes.OvertakenCallEnds | mailbox_service/token_service.py:613-629 | an overtaken call: the winner's fresh token, or one more pass that exchanges iff the mailbox is claimable, or an error |
| TokenOutcomes.HeldCallEnds | mailbox_service/token_service.py:474-612 | a call whose claim stands at the answer: one exchange, and what success, rejection and failure do to row and result |
| AliasAddress.AliasHasItsBase | mailbox_service/lease_service.py:1611-1661 | an alias has the base of its primary; that is the primary itself iff it has no plus sign |
| AliasAddress.AliasResolvesBackIff | mailbox_service/lease_service.py:1540-1576 | exactly when reacquiring by a handed-out alias finds the mailbox it was derived from |
| AliasAddress.OnlyNormalIsResolved | mailbox_service/lease_service.py:1540-1576 | a primary in mixed case is never found, since addresses are lower-cased first |
| AliasAddress.AliasesAreEqualIff | mailbox_service/lease_service.py:1611-1661 | two aliases are equal iff base and suffix are |
| AliasAddress.AliasSpelling | mailbox_service/lease_service.py:1611-1661 | the alias of any primary: its local part up to a plus sign, the suffix, its domain in lower case |
| AliasAddress.ResolvedMailboxIs | mailbox_service/lease_service.py:1540-1576 | an exact primary is found first, else the base; whatever is found is a primary |
| LeaseService.Database.UpsertLeaseClaim | mailbox_service/lease_service.py:1991-2080 | the new claim table, or one of two integrity errors and no change |
| LeaseService.Database.AllocateRandomAlias | mailbox_service/lease_service.py:1646-1661 | the first of the drawn suffixes whose address is neither leased nor registered; none iff all are taken |
| LeaseService.Database.AcquireLease | mailbox_service/lease_service.py:679-879 | all tables after an acquire, or an error and no change |
| LeaseService.Database.ReacquireLeaseByEmail | mailbox_service/lease_service.py:881-1030 | all tables after a reacquire, or an error and no change |
| LeaseService.Database.ReleaseLease | mailbox_service/lease_service.py:1260-1326 | all tables after a release, and its repeated answer |
| LeaseService.Database.ForceReleaseActiveClaims | mailbox_service/mailbox_admin_service.py:258-287 | every active lease of the mailbox released and its claims gone, nothing else changed |
| LeaseSafety.UpsertKeepsInv | mailbox_service/lease_service.py:1991-2080 | in any inventory a lease whose claim can be written keeps the invariant, and if exclusive has the mailbox alone |
| LeaseSafety.UpsertOfFittingLease | mailbox_service/lease_service.py:1991-2080 | among plain primaries neither integrity error can arise for a compatible lease |
| LeaseSafety.AcquireSucceedsIff | mailbox_service/lease_service.py:679-879 | among plain primaries an acquire succeeds iff the mailbox is eligible, the site enabled and the address free |
| LeaseSafety.ScanFinds | mailbox_service/lease_service.py:930-967 | what the walk over the active leases of a mailbox finds |
| LeaseSafety.ReacquireKeepsInv | mailbox_service/lease_service.py:881-1030 | in any inventory a reacquire keeps the invariant; what it writes belongs to the caller and the address, and if exclusive has the mailbox alone |
| LeaseSafety.ReacquireSucceedsIff | mailbox_service/lease_service.py:881-1030 | among plain primaries exactly when a reacquire succeeds; neither the unique index nor the explicit conflict can fire on it |
| LeaseRuns.ReacquireReturnsItsMailbox | mailbox_service/lease_service.py:1578-1595 | among plain primaries it is on the mailbox where the caller had that very address before |
| LeaseRuns.RunKeepsInv | mailbox_service/lease_service.py:679-2088 | the occupancy invariant over every run of leasing, administration, sites and time, in any inventory |
| LeaseRuns.RunKeepsPlain | mailbox_service/lease_service.py:679-2088 | while only plain primaries are added, every address tells its mailbox |
| LeaseRuns.NoTwoExclusiveLeases | mailbox_service/lease_service.py:713-735 | never two active exclusive leases on a mailbox, never two active leases on one address |
| LeaseRuns.ClaimsIndexActiveLeases | mailbox_service/lease_service.py:1991-2088 | a lease is active iff it has a live claim, with the same holder, address and expiry |
| LeaseRuns.ExclusiveGrantHasMailboxAlone | mailbox_service/lease_service.py:930-967 | whenever an exclusive lease is granted or renewed no other lease is active on the mailbox |
| LeaseRuns.AliasMayJoin | mailbox_service/lease_service.py:713-735 | an unused alias may join whatever is active, and disturbs nothing |
| AddressClash.AcquireRefusedIff | mailbox_service/lease_service.py:1991-2080 | in any inventory an eligible mailbox is refused iff the claim of the wanted lease clashes with an unpurged one |
| AddressClash.PrimaryRefusedIffClaimedElsewhere | mailbox_service/models.py:285 | an eligible primary is refused iff another mailbox has a claim, live or expired, on its address; otherwise granted |
| AddressClash.PrimaryBreaksIffClaimedElsewhere | mailbox_service/lease_service.py:968-1000 | a client gets a free primary back unless another mailbox has a claim, live or expired, on its address; then the unique index's error is not caught |
| AddressClash.ReacquireBreaksIff | mailbox_service/lease_service.py:968-1000 | exactly when a reacquire fails with the integrity error it does not catch |
| AddressClash.ResourceClaimBlocksPrimary | mailbox_service/models.py:285 | the address of a claimed provider resource is refused as a primary |
| AddressClash.AliasLeadsToStrangersMailbox | mailbox_service/lease_service.py:1556-1560 | transactions after which a client that held an alias is given a mailbox it never had |
| AddressClash.PrimaryClashIsReached | mailbox_service/lease_service.py:2000-2005 | two transactions after which a free primary is refused at all times, the alias's expiry included |
| AddressClash.ReacquireClashIsReached | mailbox_service/lease_service.py:2000-2005 | transactions after which a returning client meets the uncaught error |
| LeaseRuns.UnforcedDeleteSparesActiveLeases | mailbox_service/mailbox_admin_service.py:75-93 | an unforced delete succeeds iff no active lease is on the mailboxes, and destroys none |
| LeaseRuns.ReleaseRemovesExactlyOne | mailbox_service/lease_service.py:1260-1326 | a release ends one lease and its claim, and is idempotent |
| LeaseRuns.AcquireAddsExactlyOne | mailbox_service/lease_service.py:679-879 | an acquire adds one lease and its claim |
| LeaseRuns.CompensationRestoresOccupancy | mailbox_service/lease_service.py:534-551 | reserve and compensate leave active leases and live claims as time alone would |
| LeaseRuns.CompensationEndsOnlyItsLease | mailbox_service/lease_service.py:645-669 | whatever ran in between, the compensation ends the reserved lease and disturbs no other |
| LeaseRuns.FreeAliasIsGranted | mailbox_service/lease_service.py:1646-1661 | an acquire with the alias that random allocation found succeeds |
| LeaseRuns.OccupiedUntilRevoked | mailbox_service/lease_service.py:1717-1784 | an occupancy lasts until it is revoked, through site deletion too |
| LeaseRuns.RegistrationsAreSeparatedByRevocation | mailbox_service/lease_service.py:1964-1988 | between two registrations of an address at a site lies a revocation |
| LeaseOutcomes.AcquiredAsAsked | mailbox_service/lease_service.py:679-879 | what is granted is what was asked for, in the caller's name, on a mailbox that can serve it |
| LeaseOutcomes.UnusedIsGranted | mailbox_service/lease_service.py:713-755 | a plain mailbox that nobody has is granted in any exclusive mode |
| LeaseOutcomes.TakenAliasIsRefused | mailbox_service/lease_service.py:1611-1661 | an alias in use or registered at the site is refused and nothing changes |
| LeaseOutcomes.MailboxIsGrantedAlone | mailbox_service/lease_service.py:713-735 | who asks for a mailbox itself gets it alone, in any inventory |
| LeaseOutcomes.TwoTogetherReadAliases | mailbox_service/lease_service.py:713-735 | over any run two leases on a mailbox are active together only if one reads an alias, told by the columns |
| LeaseOutcomes.ReacquiredIsTheCallers | mailbox_service/lease_service.py:940-1030 | a reacquire returns the caller's own mail-read lease on that address; no other lease changes |
| LeaseOutcomes.AddressOfAnotherIsBusy | mailbox_service/lease_service.py:944-952 | while another client has the address a returning client is told busy and nothing changes |
| LeaseOutcomes.PrimaryInUseIsBusy | mailbox_service/lease_service.py:957-967 | a primary address is busy while anything else goes on in the mailbox |
| LeaseOutcomes.AliasIsGivenBack | mailbox_service/lease_service.py:953-956 | an alias is given back beside any lease that is not on it |
| LeaseOutcomes.StrangersLearnNothing | mailbox_service/lease_service.py:905-911 | without a past lease a known and an unknown address are answered alike |
| LeaseOutcomes.OnlyTheHolderReleases | mailbox_service/lease_service.py:1484-1491 | only the holder releases a lease; for everybody else it does not exist |
| LeaseOutcomes.LeaseEndsOnlyByItsOwn | mailbox_service/lease_service.py:1260-1326 | over any run an active lease ends only by time, its own client, a forced release or a forced deletion |
| LeaseOutcomes.ForcedReleaseFreesMailbox | mailbox_service/mailbox_admin_service.py:258-287 | a forced release ends every lease on the mailbox and leaves all others alone |
| LeaseOutcomes.ForcedDeletionIsExact | mailbox_service/mailbox_admin_service.py:57-118 | a forced deletion takes away the mailboxes with all that hangs on them, and nothing else |
| LeaseOutcomes.SiteLeaseRegisters | mailbox_service/lease_service.py:1717-1784 | a lease for a site registers exactly its address there, which must have been free |
| LeaseOutcomes.RevocationFreesOnePair | mailbox_service/lease_service.py:1964-1988 | a revocation frees exactly one address at one site |
| LeaseOutcomes.SiteIsDeletedIff | mailbox_service/lease_service.py:1894-1929 | a site can be deleted iff no address is registered at it, and only its entries go |
| MailboxAdmin.DeleteMailboxesByIds | mailbox_service/mailbox_admin_service.py:57-118 | the tables after a deletion, or the protected mailboxes and no change |
| MailboxAdmin.DeleteInvalidMailboxesInChunks | mailbox_service/mailbox_admin_service.py:120-223 | passing over locked rows the sweep terminates having removed exactly the other invalid mailboxes, or stops at a protected chunk |
| ProviderTenancy.Provider.Claim | mailbox_service/lease_service.py:1037-1090 | a tenancy begins with the next generation |
| ProviderTenancy.Provider.Provision | mailbox_service/lease_service.py:1133-1214 | an on-demand address is stored with its only lease |
| ProviderTenancy.Provider.Release | mailbox_service/lease_service.py:1271-1312 | the local release and its pending remote operation |
| ProviderTenancy.Provider.MarkOperationRunning | mailbox_service/provider_operation_service.py:95-103 | changes the status of the operation and nothing else |
| ProviderTenancy.Provider.FinalizeReleaseCas | mailbox_service/provider_operation_service.py:267-321 | what a finalizer writes, reports, or refuses |
| TenancyRuns.RunKeepsInv | mailbox_service/provider_operation_service.py:201-321 | the tenancy invariant over every run, with late and repeated finalizers |
| TenancyRuns.HeldExactlyWhileClaimed | mailbox_service/lease_service.py:1065-1086 | at most one unreleased lease per resource, and one iff it is claimed |
| TenancyRuns.TenanciesStrictlyIncrease | mailbox_service/lease_service.py:1065-1069 | each tenancy has a strictly larger generation |
| TenancyRuns.ReleaseFindsClaimedResource | mailbox_service/lease_service.py:1271-1312 | a release always meets a claimed resource without an operation of that generation |
| TenancyRuns.FinalizerWritesIff | mailbox_service/provider_operation_service.py:284-321 | a finalizer writes iff its generation is current and the resource awaits release |
| TenancyRuns.LaterTenancyIsFenced | mailbox_service/provider_operation_service.py:284-288 | no finalizer of an earlier tenancy touches a later one |
| TenancyRuns.SuccessAppliesOnce | mailbox_service/provider_operation_service.py:290-321 | after one applied success every later report changes nothing, forever |
| TenancyRuns.CooldownIsFinal | mailbox_service/provider_operation_service.py:290-321 | a failed remote release takes the resource out for good |
| TenancyRuns.ExternalIdsAreUnique | mailbox_service/provider_operation_service.py:123-199 | an activation of a provider instance is stored at most once, however often its success is reported |
| TenancyOutcomes.BoughtCanBeClaimed | mailbox_service/provider_operation_service.py:123-199 | a new purchase makes one resource more, which can be claimed at once |
| TenancyOutcomes.ClaimedIff | mailbox_service/lease_service.py:1037-1090 | who gets a resource, and that nobody else has it then |
| TenancyOutcomes.ReturnedWaits | mailbox_service/lease_service.py:1271-1312 | a returned resource is nobody's, cannot be claimed, and waits for a report about an operation of this tenancy |
| TenancyOutcomes.SuccessCanBeClaimed | mailbox_service/provider_operation_service.py:297-304 | after a confirmed release it can be claimed at once, under a larger generation and without the old secret |
| TenancyOutcomes.FailureEndsCirculation | mailbox_service/provider_operation_service.py:305-310 | after a failed release it is never leased again in any run, and the operation stays failed |
| TenancyOutcomes.UncertainStaysOut | mailbox_service/provider_operation_service.py:311-316 | until a success or failure of this operation is reported it is neither leased nor claimable, in any run |
| TenancyOutcomes.UnknownStillWaits | mailbox_service/provider_operation_service.py:311-316 | an unknown outcome leaves it waiting for a further report, which is still effective |
| TenancyOutcomes.RepeatedReportIsAnswered | mailbox_service/provider_operation_service.py:286-296 | a report that comes again is acknowledged after a failure, too late after a success, and changes nothing |
| TenancyOutcomes.OnDemandIsUsedOnce | mailbox_service/lease_service.py:1301-1312 | a provisioned address that is given back loses its secret and is never leased again |
| SchedulerLease.Repository.AcquireJob | mailbox_service/scheduler_lease_repository.py:37-73 | the job row and the handle after an acquisition, or a refusal |
| SchedulerLease.Repository.RenewJob | mailbox_service/scheduler_lease_repository.py:75-90 | renews only for the present owner and token |
| SchedulerLease.Repository.ReleaseJob | mailbox_service/scheduler_lease_repository.py:92-105 | ends the lease only for the present owner and token |
| SchedulerLease.TokenCountsTakeovers | mailbox_service/scheduler_lease_repository.py:37-73 | the token is the initial one plus the number of takeovers |
| SchedulerLease.OwnerChangesOnlyAfterExpiry | mailbox_service/scheduler_lease_repository.py:56-70 | a new owner only after expiry, under the next token |
| SchedulerLease.TokensIdentifyOwners | mailbox_service/scheduler_lease_repository.py:37-73 | in every run each token of a job belongs to one owner |
| SchedulerLease.HandleWorksIffNeverTakenOver | mailbox_service/scheduler_lease_repository.py:75-105 | a handle renews and releases iff nobody took the job over since |
| SchedulerLease.ReturningOwnerGetsFreshToken | mailbox_service/scheduler_lease_repository.py:56-73 | an owner that returns gets a larger token |
| SchedulerLease.TakenOverIffLastDeadlinePassed | mailbox_service/scheduler_lease_repository.py:37-105 | after any run, for a known or a new job, another owner gets it iff no deadline was granted or the last one has come |
| SchedulerLease.HolderIsAloneUntilDeadline | mailbox_service/scheduler_lease_repository.py:37-73 | until its deadline a holder keeps the job unchanged, whatever the others try |
| SchedulerLease.AcquiredForThatLong | mailbox_service/scheduler_lease_repository.py:37-73 | who acquires a job, known or new, has it alone for the time asked for, over any run in which it leaves the job alone |
| SchedulerLease.ExtendedForThatLong | mailbox_service/scheduler_lease_repository.py:75-90 | the same for an extension |
| SchedulerLease.GivenUpIsFree | mailbox_service/scheduler_lease_repository.py:92-105 | a job given up is free at once, and the old handle is void then |
| ProxyHealth.EgressProxy.RecordObservation | mailbox_service/proxy_service.py:263-341 | the health columns after an observation; a stale one changes nothing |
| ProxyHealth.EgressProxy.RecoverProxy | mailbox_service/proxy_service.py:385-395 | the columns after an operator's recovery |
| ProxyHealth.HealthFoldsHistory | mailbox_service/proxy_service.py:263-341 | count, version and last observation are folds over the accepted events, whatever selection does |
| ProxyHealth.CooldownExactlyAtThreshold | mailbox_service/proxy_service.py:284-301 | an accepted failure cools the proxy down iff it brings the count to the threshold |
| ProxyHealth.CooldownHasDeadline | mailbox_service/proxy_service.py:284-301 | a proxy in cooldown always has a deadline |
| ProxyHealth.NextFailureAfterReuseCoolsDown | mailbox_service/proxy_service.py:518-520 | selection forgives no failure |
| ProxyHealth.SuccessHeals | mailbox_service/proxy_service.py:279-284 | an accepted success makes the proxy healthy, forgets its failures and lets it be used at once |
| ProxyHealth.FailureIsNoted | mailbox_service/proxy_service.py:285-303 | an accepted failure is noted; below the threshold the proxy stays in use, at it the cooldown lasts as long as configured |
| ProxySelection.SelectionIsUnique | mailbox_service/proxy_service.py:483-516 | pool, exclusions and locks determine the choice |
| ProxySelection.OverlappingSelectionsDiffer | mailbox_service/proxy_service.py:500-516 | an overlapping selection gets the runner-up, nothing iff there is none |
| ProxySelection.ListedIsAvailable | mailbox_service/proxy_service.py:483-528 | query filter and in-memory test agree on every reachable health |
| ProxySelection.ChosenIsFirst | mailbox_service/proxy_service.py:475-528 | the chosen proxy against any other usable one: priority, bound mailboxes, identifier |
| ProxySelection.NoneIsChosenIff | mailbox_service/proxy_service.py:500-528 | nothing is chosen iff every usable proxy is excluded or locked |
| ProxySelection.KeepsProxyIff | mailbox_service/proxy_service.py:226-251 | a mailbox keeps its proxy iff that is enabled, allowed, out of cooldown and not excluded |
| ProxySelection.ProxyService.SelectCandidate | mailbox_service/proxy_service.py:461-521 | the least available, unlocked, not excluded proxy by priority, bound count, identifier; None iff there is none |
| ProxySelection.ProxyService.SelectWithRetry | mailbox_service/proxy_service.py:442-459 | the first attempt that finds one; None iff none does |
| ProxySelection.ProxyService.Rebind | mailbox_service/proxy_service.py:245-259 | selection and binding, or direct routing where permitted, or an error and no change |
| ProxySelection.ProxyService.ResolveForMailbox | mailbox_service/proxy_service.py:210-261 | the resolved proxy is enabled, allowed, out of cooldown, not excluded and bound; direct routing only where permitted |
| ProxySelection.ProxyService.ExecuteWithProxyRetry | mailbox_service/proxy_service.py:770-812 | with other writers between its transactions: at most two runs, the second only after a broken chain and on another permitted route; one failure recorded for the first proxy, a success for the one that served |
| CodeMatcher.MatchXaiToken | mailbox_service/verification_code_matcher.py:100-141 | the first code the scan can find, None iff there is none, each position visited at most twice |
| CodeMatcher.UnlabelledFindsLeftmostPair | mailbox_service/verification_code_matcher.py:100-141 | without a label that is the leftmost pair of maximal three-character runs joined by one dash |
| CodeMatcher.LabelledPairIsFoundIff | mailbox_service/verification_code_matcher.py:117-133 | with a label, exactly the pairs an even number of chained pairs leads up to |
| CodeMatcher.LabelledPairCanBeMissed | mailbox_service/verification_code_matcher.py:117-133 | a subject whose labelled code is overlooked |
| CodeMatcher.LabelIff | mailbox_service/verification_code_matcher.py:123-133 | what a label is, character by character |
| CodeMatcher.SearchXai | mailbox_service/verification_code_matcher.py:93-98 | a labelled subject code first, else the leftmost code; None iff subject and body hold none |
| CodeMatcher.SearchToken | mailbox_service/verification_code_matcher.py:157-174 | the leftmost maximal run of fitting length, None iff there is none, linear steps |
| CodeMatcher.SearchWithPrefix | mailbox_service/verification_code_matcher.py:143-155 | the code after the leftmost prefix occurrence that has one, None iff none has |
| CodeMatcher.ReadCodeAt | mailbox_service/verification_code_matcher.py:176-187 | the code after any white space, if its length fits |
| CodeMatcher.CodeAfterIff | mailbox_service/verification_code_matcher.py:176-187 | what stands after a prefix is the code iff behind the white space a run of fitting length stands |
| Utf8Budget.DecodeOfEncode | mailbox_service/verification_code_matcher.py:211-218 | decoding undoes encoding (section 3 of RFC 3629) |
| Utf8Budget.KnownEncodings | mailbox_service/verification_code_matcher.py:211 | the examples of section 7 of RFC 3629 |
| Utf8Budget.EncodedRanges | mailbox_service/verification_code_matcher.py:211-217 | the byte ranges of section 4 of RFC 3629 |
| Utf8Budget.KeptIsNearBudget | mailbox_service/verification_code_matcher.py:205-218 | what is kept is unique, fits, and is at most four bytes short |
| Utf8Budget.CutFits | mailbox_service/verification_code_matcher.py:205-218 | a prefix within the budget, the whole text iff it fits |
| Utf8Budget.TruncateTextToByteBudget | mailbox_service/verification_code_matcher.py:205-218 | the byte loop returns exactly that whole-character prefix |
| PollBudget.FindCodeInMessages | mailbox_service/verification_code_service.py:1085-1150 | the first match among the messages that fit the budget together, the bytes read, and whether the request is over |
| PollBudget.ScanIsUnique | mailbox_service/verification_code_service.py:1102-1150 | that description determines the answer |
| PollBudget.BodyIsCutAt64K | mailbox_service/verification_code_service.py:1106 | a body of up to 64 KiB is read as a whole, a longer one up to at most four bytes less than that |
| PollBudget.UnfinishedScanIsLarge | mailbox_service/verification_code_service.py:1109-1113 | a scan cut short without ending the request has read more than 448 KiB |
| PollBudget.AtMostTwoLargeScans | mailbox_service/verification_code_service.py:513-521 | so a request has at most two such scans |
| PollBudget.Poll.Used | mailbox_service/verification_code_service.py:513-521 | the bodies scanned over a whole request never exceed 1 MiB |
| PollBudget.WaitForVerificationCode | mailbox_service/verification_code_service.py:474-575 | the outcome in terms of all scans before it, and at most ceil(timeout / max(interval, 1)) + 1 attempts |
| PollBudget.DeadlineIsKept | mailbox_service/verification_code_service.py:474-557 | when time is up, and how long a sleep is |
| ImportLine.SplitOfJoin | mailbox_service/main.py:1158-1159 | splitting undoes joining iff no field contains the separator or runs into it |
| ImportLine.FormatIsReadBackIff | mailbox_service/main.py:2603-2610 | a line is split into the fields it was written from iff these are readable |
| ImportLine.ParseOfReadable | mailbox_service/main.py:1156-1172 | what parsing makes of a readable, complete line |
| ImportLine.ParseOfFormatIff | mailbox_service/main.py:1156-1172 | parsing undoes formatting iff the fields are readable, complete, and the address is in normal form |
| MailboxImport.LinesOfFileIff | mailbox_service/main.py:2703-2705 | a file has the lines it was made of iff none holds a line break (or the only one is empty) |
| MailboxImport.MailboxTable.ImportMailboxes | mailbox_service/main.py:2444-2600 | table, tallies and errors after an import |
| MailboxImport.EveryLineIsCounted | mailbox_service/main.py:2447-2575 | every line that is not blank is counted exactly once |
| MailboxImport.ImportIsCounted | mailbox_service/main.py:2575-2600 | the tallies of an import add up to its lines, or to one error if there was nothing to import |
| MailboxImport.NewAddressIsCreated | mailbox_service/main.py:2512-2529 | a line with a new address creates an active mailbox with its credentials |
| MailboxImport.ExistingAddressFollowsPolicy | mailbox_service/main.py:2466-2500 | what each policy does to an address that exists |
| MailboxImport.ImportSparesRows | mailbox_service/main.py:2466-2500 | no row is removed, and a row changes only by one permitted replacement |
| MailboxImport.ExportMailboxes | mailbox_service/main.py:2654-2705 | the file, or the incomplete mailboxes by name |
| MailboxImport.ImportRestoresExport | mailbox_service/main.py:2451-2460 | importing an exported file of portable records into an empty table restores every record without an error |
| ExportRoundTrip.FileRestoresIff | mailbox_service/main.py:2447-2600 | a file restores exactly its records iff each is portable and no address occurs twice |

## Left out

- The re-audience write during Graph probing (`token_service.py:1392-1437`): it writes across a network call without claim or version check; the binding of access tokens is not claimed for it.
- "A refresh token is never rotated while it is leased" is not stated: the lease check is made only when the claim is installed.
- Poll capacity counters: a rejected request decrements counters it never incremented, so their bounds are not invariants.
- `expected_state_version` of a release operation is stored but never compared, so the model has no such field in the operation.
- The row-count branch after installing a claim is dead under the row lock and is not modelled.
- Audience and mail-channel tests of a cached token are one abstract predicate of the call.
- Errors of completing a refresh for a row that vanished, of decryption and of the audit log; encryption is the identity.
- Mailboxes are named by their unique primary address, and the conditions for success assume lower-case primaries without `+`.
- Which eligible mailbox or resource a query picks (ordering by time, skipped locks) is a parameter of the step; random suffixes are parameters too.
- On-demand and SMSBower leases and the Microsoft ones are separate modules; conflicts of their addresses in the shared claim table are not modelled.
- A transaction sees one instant of time; the program reads the clock several times within one.
- A rolled-back acquire reports "no mailbox" here for both integrity errors; the texts of messages are not modelled.
- MailboxAdmin.DeleteInvalidMailboxesInChunks: the set of rows locked by other transactions stays the same during the sweep.
- TokenRepository.Mailbox.ReplaceByImport: the mail password and the probe columns are not columns of the modelled row; the password of an import is part of `MailboxImport.dfy`.
- ProviderTenancy.Provider.Claim: does not write the claim row of the lease, so a rollback because of a clashing address is not modelled.
- ProviderTenancy.Provider.Provision: does not write the claim row either, and the call of the provider that precedes it is a parameter.
- Rotation of the order of providers, settings, HTTP, IMAP, Graph, health probes and transports are input and output.
- LabelFollows in `CodeMatcher.dfy`: upper-casing is that of ASCII, so a dotless i in the label is not recognised.
- CodeMatcher.SearchWithPrefix: text and prefix are compared in ASCII lower case.
- CodeMatcher.MatchXaiToken: the step count covers the index loops, not the copies that the label test strips.
- Filters on sender, subject, recipients and body, and the fallback matchers, are one abstract function of message and cut body.
- Lone surrogates cannot occur in a text here; encoding one fails in the program.
- PollBudget.WaitForVerificationCode: assumes that the clock never goes back and that sleeping takes at least as long as asked; without that the number of attempts is unbounded.
- ImportLine.ParseOfFormatIff: assumes that the address library does not make the address read from this line longer, as it is for ASCII addresses; the other direction, ParseOfReadable, needs no assumption.
- ExportRoundTrip.FileRestoresIff: assumes this of the lines of the file, and that the normal forms of their addresses are normal forms of themselves; the other direction, ImportRestoresExport, needs neither.
- LeaseSafety.AcquireSucceedsIff: its invariant has no claims of provider resources, which share the unique index on addresses; AddressClash states what such a claim does.
- LeaseSafety.ReacquireSucceedsIff: the same.
- Comparisons of addresses in queries are exact; a collation that ignores case is not modelled.
- Case folding and stripping follow ASCII letters and Unicode white space; the lower case of other letters is not modelled.
- Lifetime stamps and probe columns of an imported row, and its in-flight refresh claim, are part of the token model only.
