# m9sweeper backend: verified model

m9sweeper decides which pods a Kubernetes cluster may run. This project models the parts of its
backend (`dash/backend/src`) where a wrong step is hard to see, and proves what they are for:

- **Gatekeeper exception blocks** (`RegoSplice`, `ExceptionBlocks`, `ExceptionBlockLaws`,
  `TemplateReadBack`, `ExceptionBlockFlaws`): exceptions are printed as Rego text and spliced
  between markers of a template on every sync.
- **Exceptions** (`ExceptionStore`, `ExceptionQuery`, `SqlLike`, `ImagePattern`): the "applies to all"
  flags next to three link tables, the query over outer joins, the expiry sweep, and the image
  pattern that one place reads as a regular expression and another as a `LIKE` pattern.
- **Registries and admission** (`Registries`, `Admission`): aliases of registries, images found or
  created under any alias, and the decision about a pod.
- **Falco** (`FalcoRules`, `FalcoAlerts`, `FalcoHistogram`): first-match rules behind a one-minute
  cache, throttled e-mail alerts, and a daily histogram.
- **Transforms** (`SchemaPruning`, `AuditDiff`, `NamespaceSync`, `HtmlEscape`, `Tables`): pruning an
  API document, the audit log's difference, a namespace sync whose saves are not awaited, and
  values printed as HTML.

`Wrappers`, `Shared` and `Text` hold what several modules use: optional values, a few constants and
lemmas, and the JavaScript string operations `indexOf`, `split`, `join`, `replace` and `trim`. `dafny verify dfyconfig.toml` checks everything.

Tables are maps and sets in the fields of a class; each method is proved to do to them what a
function says, and the lemmas are about that function. One call of a service is one step of a run.
Clocks, the database's choice among equally good answers, regular expressions of Falco rules, the
compliance check and e-mail delivery are parameters.

## Where the code falls short of what one would expect

Each of these is kept as the code has it, with a lemma that says exactly when things go well.

- Updating a registry does not look at `deleted_at`. An update of a deleted registry can leave an
  alias without a live owner, and a later update of a live registry then loses that alias without an
  error (`StepKeepsAliasesLive`, `RunsKeepAliasesLive`, `UpdateSetsAliases`, `AnAliasIsDropped`).
  The HTTP endpoint reads the registry first and fails on a deleted one, so this takes an update that
  a deletion overtakes between its read and its write. That live registries share no host holds on
  every run all the same (`RunsAreSound`).
- Creating an exception is not a transaction. A creation whose links are refused leaves an exception
  whose flag says "linked" without a link (`StepKeepsSound`, `RunsKeepFlags`, `ACreationIsCutShort`).
- Creating an image stores it and then throws when its cluster has no policy. The request fails, and
  the same request again is decided (`AskingAgain`, `SecondAnswerDiffers`).
- The alert throttle reads any recorded send, and alerts can overlap. The first two alerts are sure
  to be spaced exactly when the first has something on record by the time the second looks, or the
  frequency has passed by then anyway (`FirstTwoAreApart`, `OverlappingAlertsBothGo`). Any alert is
  sure to go out only a frequency after all sends on record exactly when all of them are that old or
  none is (`AllAreApartExactly`), so later ones are not spaced even without overlap
  (`ThirdCanFollowAtOnce`); reading the latest send would space an
  alert from every one on record (`LatestKeepsAllApart`).
- A cached rule list is dated from when it is stored, not from when it was read, so it is served for
  a minute on top of the time its reading took (`StaleByTheReading`, `ServedTooLate`). An empty list
  is never served from the cache.
- The namespace sync can return before its saves are done, and saves can outlive it. The stored names
  are the listed ones on every interleaving exactly when the sync had nothing to add
  (`InStepExactly`, `CanReturnEarly`).
- The histogram looks at the clock twice; when midnight passes in between, the totals differ by
  exactly the logs of the new day (`TotalsAgree`, `MidnightIsLost`).
- In an image pattern `_` is a wildcard for `LIKE` and a literal for the filter, and `.` the other
  way round. The filter and `LIKE` let loose at both ends agree on all names exactly for patterns
  with neither (`FilterAgreesExactly`); that the anchored `LIKE` implies the filter takes only that
  there is no `_` (`LikeImpliesFilter`).
- An exception whose pattern has only percent signs, and blanks that are last or followed by one,
  prints a line that excuses every image of every namespace, whatever its namespaces
  (`AnyImageExactly`).
- A template without the start marker gets the block twice on each sync (`WithoutStart`).
- Overwriting an exception block loses or repeats text when the earlier block ends in the wrong way:
  `OverwriteExactly` says which blocks, `ATitleBreaksTheTemplate` shows an exception that prints one,
  and `PrintedBlocksAreSafe` says that exceptions without marker text in their titles never do.
- The audit difference leaves an array as it is exactly when it has no object or array in it and the
  other value is the same array, the string of its characters, or an object with that length and
  those elements (`ArrayIsKeptExactly`, `ArrayTurnedString`). So an unchanged array of objects is
  always recorded as if it had changed (`ArraySurvives`, `ArrayOfObjectsIsRecorded`).
- The recursion over schemas has no visited set and ends exactly on acyclic references
  (`RecursionEndsExactly`, `SelfReferenceNeverEnds`).

## Model

| member | source | states |
|---|---|---|
| RegoSplice.TemplateObj.SaveExceptionBlock | dash/backend/src/modules/command-line/services/exception-block.service.ts:153-182 | one sync of a template leaves the text that `Save` describes |
| RegoSplice.TemplateObj.ReplaceBlock | dash/backend/src/modules/command-line/services/exception-block.service.ts:157-165 | the split, splice and join steps for one pair of markers, on every text, with or without markers, one or many |
| RegoSplice.OverwriteExactly | dash/backend/src/modules/command-line/services/exception-block.service.ts:157-165 | for one pair of markers, writing `b` after any `a` gives what writing `b` alone gives, if and only if the tail of `a` passes a check a caller can run before writing |
| RegoSplice.SaveFills | dash/backend/src/modules/command-line/services/exception-block.service.ts:156-178 | a sync replaces the content of the two regions and keeps every other character, in either order of the regions |
| RegoSplice.SaveKeepsRegions | dash/backend/src/modules/command-line/services/exception-block.service.ts:156-178 | after a sync each marker occurs once again, at computed places, so the next sync meets the same conditions |
| RegoSplice.BlocksLand | dash/backend/src/modules/command-line/services/exception-block.service.ts:158-178 | after a sync the text between the first pair of markers is the first block, and that between the second pair the block with image patterns, each behind a line break and two blanks |
| RegoSplice.WithoutStart | dash/backend/src/modules/command-line/services/exception-block.service.ts:157-165 | without a start marker the marker and the block are appended, and the block once more from its first end marker on |
| RegoSplice.LastSyncWins | dash/backend/src/modules/command-line/services/exception-block.service.ts:153-182 | saving `a` and then `b` is saving `b`, for every well-formed text and marker-free blocks |
| RegoSplice.RunOfSyncs | dash/backend/src/modules/command-line/services/exception-block.service.ts:27-59 | any number of syncs leaves the text of the last one alone |
| ExceptionBlocks.CalculateExceptionBlock | dash/backend/src/modules/command-line/services/exception-block.service.ts:240-269 | prints both texts of one exception; nothing without namespaces, an error for a null pattern |
| ExceptionBlocks.PrintNamespaces | dash/backend/src/modules/command-line/services/exception-block.service.ts:253-257 | one line for each namespace, in order |
| ExceptionBlocks.PrintNamespacesWithImage | dash/backend/src/modules/command-line/services/exception-block.service.ts:258-262 | one line for each namespace with the pattern, in order |
| ExceptionBlocks.CalculateCommonExceptionBlocks | dash/backend/src/modules/command-line/services/exception-block.service.ts:62-114 | both loops over exceptions of all clusters: the texts appended in order, and the namespaces of each exception replaced in place |
| ExceptionBlocks.CalculateSpecificExceptionBlocks | dash/backend/src/modules/command-line/services/exception-block.service.ts:122-134 | exceptions for one issue: the cluster's namespaces for those that name none, texts appended in order |
| ExceptionBlocks.TemplateSpecificExceptionBlock | dash/backend/src/modules/command-line/services/exception-block.service.ts:117-151 | the three texts in order, each block with its fallback when empty |
| ExceptionBlocks.SyncTemplate | dash/backend/src/modules/command-line/services/exception-block.service.ts:27-59 | the sync of one template prints everything that concerns it, in order, and saves it; an error in printing leaves the template alone |
| TemplateReadBack.SyncTells | dash/backend/src/modules/command-line/services/exception-block.service.ts:27-59 | reading both blocks of a synced template back gives every exception in order with exactly its namespaces: of those for all clusters the ones of the cluster that are among its own, or among the common ones when it has none, picked in order; of the others its own, or all of the cluster; and with its pattern |
| TemplateReadBack.ResolvedNames | dash/backend/src/modules/command-line/services/exception-block.service.ts:73-77 | the namespaces of an exception for all clusters, by membership and order |
| TemplateReadBack.PatternIsCleaned | dash/backend/src/modules/command-line/services/exception-block.service.ts:248-251 | the printed pattern is the stored one without percent signs and without blanks that stand alone between them |
| TemplateReadBack.HeaderExactly | dash/backend/src/modules/command-line/services/exception-block.service.ts:263-265 | the header line of an exception |
| TemplateReadBack.LinesExactly | dash/backend/src/modules/command-line/services/exception-block.service.ts:255-265 | the line of a namespace, the one with a pattern, and the one that excuses every image |
| ExceptionBlocks.BlocksOfConcat | dash/backend/src/modules/command-line/services/exception-block.service.ts:135-145 | printing a list in pieces and appending is printing it at once, errors included |
| ExceptionBlockLaws.TemplateBlockReadsBack | dash/backend/src/modules/command-line/services/exception-block.service.ts:62-151 | a parser gets back from the first block the contributing exceptions, in order, each with number, title and namespaces |
| ExceptionBlockLaws.ImageBlockReadsBack | dash/backend/src/modules/command-line/services/exception-block.service.ts:117-151 | a parser gets back from the second block the same exceptions, each namespace with its pattern, and no namespaces for an empty pattern |
| ExceptionBlockLaws.PrintingFails | dash/backend/src/modules/command-line/services/exception-block.service.ts:240-251 | printing fails if and only if some exception with a namespace has a null pattern |
| ExceptionBlockLaws.FallbackTogether | dash/backend/src/modules/command-line/services/exception-block.service.ts:138-149 | both blocks take their fallback together, if and only if no exception contributes a namespace |
| ExceptionBlockLaws.CommonNamespacesExist | dash/backend/src/modules/command-line/services/exception-block.service.ts:62-88 | every namespace printed for a common exception exists in the cluster |
| ExceptionBlockLaws.PrintedBlocksAreSafe | dash/backend/src/modules/command-line/services/exception-block.service.ts:240-269 | text printed from exceptions whose titles hold no marker, and whose names and patterns hold no hash sign, holds and completes no marker |
| ExceptionBlockLaws.SyncsLeaveNoTrace | dash/backend/src/modules/command-line/services/exception-block.service.ts:27-59 | over any days of `SyncTemplate` with changing exceptions, some of which may not print, a template ends up as if only the last sync that could print had happened |
| ExceptionBlockFlaws.EndMarkerInTitle | dash/backend/src/modules/command-line/services/exception-block.service.ts:263-266 | a title that holds the end marker, and not the start marker, prints a block that the next sync cannot overwrite |
| ExceptionBlockFlaws.ATitleBreaksTheTemplate | dash/backend/src/modules/command-line/services/exception-block.service.ts:153-182 | there is such an exception, and no template it is printed into recovers with the next write |
| ExceptionBlockFlaws.AnyImageExactly | dash/backend/src/modules/command-line/services/exception-block.service.ts:248-265 | an exception prints the line that excuses every image if and only if its pattern has only percent signs, and blanks that are last or followed by one |
| ExceptionStore.ExceptionsDao.CreateException | dash/backend/src/modules/exceptions/dao/exceptions.dao.ts:12-66 | the statements in order, each keeping the work of those before it when it fails |
| ExceptionStore.ExceptionsDao.UpdateException | dash/backend/src/modules/exceptions/dao/exceptions.dao.ts:356-429 | row and links replaced, or everything as it was when any statement fails |
| ExceptionStore.ExceptionsDao.DeleteException | dash/backend/src/modules/exceptions/dao/exceptions.dao.ts:347-354 | only the deletion mark changes; links stay |
| ExceptionStore.ExceptionsDao.UpdateExceptionStatus | dash/backend/src/modules/exceptions/dao/exceptions.dao.ts:431-436 | only the status of one row changes |
| ExceptionStore.CreatedAsAsked | dash/backend/src/modules/exceptions/dao/exceptions.dao.ts:12-66 | a creation that works stores every column and link as asked for, with an empty pattern as none, and touches no other exception |
| ExceptionStore.CutShortExactly | dash/backend/src/modules/exceptions/dao/exceptions.dao.ts:12-66 | which row and links a creation that fails leaves behind |
| ExceptionStore.UpdatedAsAsked | dash/backend/src/modules/exceptions/dao/exceptions.dao.ts:356-429 | an update that works stores every column and link as asked for, keeps the deletion mark, and the pattern when none is given, and touches no other exception |
| ExceptionStore.DeletedAsAsked | dash/backend/src/modules/exceptions/dao/exceptions.dao.ts:347-354 | a deletion sets one mark and changes nothing else |
| ExceptionStore.CreateKeepsSound | dash/backend/src/modules/exceptions/dao/exceptions.dao.ts:12-66 | a creation keeps all three flags in step with the links if and only if its links are not refused after its row is stored |
| ExceptionStore.UpdateKeepsSound | dash/backend/src/modules/exceptions/dao/exceptions.dao.ts:356-429 | an update keeps the flags in step, committed or rolled back, and one rolled back changes nothing |
| ExceptionStore.StepKeepsSound | dash/backend/src/modules/exceptions/dao/exceptions.dao.ts:347-436 | every operation keeps the flags in step, apart from a creation cut short |
| ExceptionStore.RunsKeepFlags | dash/backend/src/modules/exceptions/dao/exceptions.dao.ts:356-429 | over a run from empty tables each flag is true exactly without links of its kind, throughout, if and only if no creation of the run is cut short |
| ExceptionStore.ACreationIsCutShort | dash/backend/src/modules/exceptions/dao/exceptions.dao.ts:12-66 | a run of one request, with an unknown cluster, after which an exception is for no cluster and not for all |
| ExceptionQuery.SelectedRows | dash/backend/src/modules/exceptions/dao/exceptions.dao.ts:120-192 | which pairs of exception and policy column the distinct rows of the three outer joins are |
| ExceptionQuery.QuerySelectsWhatApplies | dash/backend/src/modules/exceptions/dao/exceptions.dao.ts:120-192 | an exception is selected if and only if it is not deleted, is active, has a type that the asked one matches, has begun and not ended, and for cluster, policy and namespace each has the flag or a matching link, all in columns of the tables |
| ExceptionQuery.SelectedFromStartToEnd | dash/backend/src/modules/exceptions/dao/exceptions.dao.ts:149-156 | an exception selected on one day is selected on exactly the days from its start up to its end |
| ExceptionQuery.CreatedIsSelected | dash/backend/src/modules/exceptions/dao/exceptions.dao.ts:12-66 | creating and then querying: the exception is selected exactly where and when the request asks for it, and all others as before |
| ExceptionQuery.UpdatedIsSelected | dash/backend/src/modules/exceptions/dao/exceptions.dao.ts:356-429 | the same for an update, unless the exception is deleted |
| ExceptionQuery.DeletedIsNotSelected | dash/backend/src/modules/exceptions/dao/exceptions.dao.ts:347-354 | a deleted exception is not selected, and all others are as before |
| ExceptionQuery.DeletedForGood | dash/backend/src/modules/exceptions/dao/exceptions.dao.ts:347-436 | over any run a deleted exception is never selected again |
| ExceptionQuery.StatusDecides | dash/backend/src/modules/exceptions/dao/exceptions.dao.ts:431-436 | a new status decides about its own exception alone |
| ExceptionQuery.AppliesByLinks | dash/backend/src/modules/exceptions/dao/exceptions.dao.ts:157-187 | with flags in step this is: no link of the kind, or a matching one |
| ExceptionQuery.SyncExceptionStatus | dash/backend/src/modules/command-line/commands/exception.command.ts:16-21 | the sweep retires every expired exception and touches nothing else |
| ExceptionQuery.SweepRetires | dash/backend/src/modules/command-line/commands/exception.command.ts:16-21 | exactly the exceptions that are not deleted and whose end date, at midnight UTC, lies before the sweep turn inactive |
| ExceptionQuery.SweepIsInvisible | dash/backend/src/modules/command-line/commands/exception.command.ts:16-21 | every query at or after a sweep returns the same rows, with the same contents, as without it |
| ExceptionQuery.SweepsAreInvisible | dash/backend/src/modules/exceptions/dao/exceptions.dao.ts:124-156 | the same after any number of sweeps |
| ImagePattern.SimpleParses | dash/backend/src/modules/exceptions/services/exceptions.service.ts:286-296 | the regular expression a simple pattern turns into |
| ImagePattern.FilterIsLike | dash/backend/src/modules/exceptions/services/exceptions.service.ts:276-300 | the filter accepts a one-line name if and only if `LIKE` does with the pattern let loose at both ends and dots as one-character wildcards |
| ImagePattern.FilterAgreesExactly | dash/backend/src/modules/exceptions/services/exceptions.service.ts:286-298 | filter and `LIKE` let loose at both ends accept the same one-line names if and only if the pattern has neither dots nor underscores |
| ImagePattern.LooseLikeIsInOrder | dash/backend/src/modules/exceptions/services/exceptions.service.ts:286-298 | `LIKE` let loose at both ends accepts a text if and only if taking each literal chunk leftmost succeeds |
| ImagePattern.FilterIsInOrder | dash/backend/src/modules/exceptions/services/exceptions.service.ts:276-300 | without dots, and with underscores as literals, the filter accepts a name if and only if the literal chunks occur in it in order without overlap |
| ImagePattern.LikeImpliesFilter | dash/backend/src/modules/exceptions/dao/exceptions.dao.ts:490-493 | every name the anchored `LIKE` accepts passes the filter, if and only if the pattern has no underscore |
| Registries.DockerRegistriesDao.GetDockerRegistryIds | dash/backend/src/modules/docker-registries/dao/docker-registries.dao.ts:43-65 | joining with aliases, filtering and grouping finds exactly the live registries, apart from the one given, that have the name or answer to a url |
| Registries.LookupExactly | dash/backend/src/modules/docker-registries/dao/docker-registries.dao.ts:46-63 | what a lookup finds, in columns of the two tables |
| Registries.NobodyElse | dash/backend/src/modules/docker-registries/dao/docker-registries.dao.ts:43-65 | when the query finds nothing, no other live registry answers to any of the urls |
| Registries.DockerRegistriesDao.CreateDockerRegistry | dash/backend/src/modules/docker-registries/dao/docker-registries.dao.ts:13-41 | a new row with all its aliases, or nothing when an alias is taken or repeated |
| Registries.DockerRegistriesDao.UpdateDockerRegistry | dash/backend/src/modules/docker-registries/dao/docker-registries.dao.ts:148-178 | on every request, conflicting or not: unwanted aliases dropped and wanted ones inserted unless taken, deleted registries included |
| Registries.DockerRegistriesDao.DeleteDockerRegistryById | dash/backend/src/modules/docker-registries/dao/docker-registries.dao.ts:180-198 | marked as deleted, and its aliases removed |
| Registries.DockerRegistriesService.CreateDockerRegistry | dash/backend/src/modules/docker-registries/services/docker-registries.service.ts:17-30 | refused on any conflict; otherwise created under an unused number |
| Registries.DockerRegistriesService.UpdateDockerRegistry | dash/backend/src/modules/docker-registries/services/docker-registries.service.ts:45-57 | refused on a conflict with another live registry; otherwise updated |
| Registries.DockerRegistriesService.DeleteDockerRegistryById | dash/backend/src/modules/docker-registries/services/docker-registries.service.ts:73-75 | passes the deletion on |
| Registries.StepIsSound | dash/backend/src/modules/docker-registries/services/docker-registries.service.ts:17-57 | every call of the service keeps hosts of live registries pairwise disjoint, and their names different unless empty |
| Registries.RunsAreSound | dash/backend/src/modules/docker-registries/services/docker-registries.service.ts:17-57 | on every run of calls from empty tables, no two live registries answer to the same host or share a name |
| Registries.CreatedAsAsked | dash/backend/src/modules/docker-registries/services/docker-registries.service.ts:17-30 | an accepted creation stores name, hostname and aliases asked for, and the registry is found under each host, alone |
| Registries.UpdatedAsAsked | dash/backend/src/modules/docker-registries/dao/docker-registries.dao.ts:155-175 | an accepted update stores the name and hostname asked for, keeps the deletion mark and all other registries, and the registry answers to the hostname and aliases asked for |
| Registries.UpdatedIsFound | dash/backend/src/modules/docker-registries/services/docker-registries.service.ts:45-57 | a live registry is then found under each host asked for, alone, and nowhere under an old one |
| Registries.DeletedIsForgotten | dash/backend/src/modules/docker-registries/dao/docker-registries.dao.ts:180-198 | a deleted registry keeps its name and hostname, loses its aliases, and is found under no host |
| Registries.StepKeepsAliasesLive | dash/backend/src/modules/docker-registries/dao/docker-registries.dao.ts:148-198 | a request keeps every alias with a live registry if and only if it does not give a deleted registry aliases |
| Registries.RunsKeepAliasesLive | dash/backend/src/modules/docker-registries/dao/docker-registries.dao.ts:148-198 | the same for whole runs |
| Registries.UpdateSetsAliases | dash/backend/src/modules/docker-registries/dao/docker-registries.dao.ts:162-175 | an accepted update leaves exactly the aliases asked for, if and only if no deleted registry holds one of them |
| Registries.AnAliasIsDropped | dash/backend/src/modules/docker-registries/dao/docker-registries.dao.ts:167-174 | five calls of the service after which an accepted update has lost the alias it asked for |
| Admission.ClusterValidationService.FindOrCreateImage | dash/backend/src/modules/cluster-validation/services/cluster-validation.service.ts:144-182 | the image found under the first host that has it, or a new one; refused on a taken full name, and failing after the image is stored when the cluster has no policy |
| Admission.ClusterValidationService.HostsOf | dash/backend/src/modules/cluster-validation/services/cluster-validation.service.ts:145-155 | the hosts to look under |
| Admission.ChecksTheGroup | dash/backend/src/modules/cluster-validation/services/cluster-validation.service.ts:145-155 | these are exactly the names of the same registry |
| Admission.StoredAsAsked | dash/backend/src/modules/cluster-validation/services/cluster-validation.service.ts:157-181 | when no image of the registry is found, the one stored has the host, name and tag asked for, `latest` for none, or it is refused exactly when its full name is taken |
| Admission.NamedByPathAndImage | dash/backend/src/modules/cluster-validation/services/cluster-validation.service.ts:70-74 | path and image name, or the one of them that is there |
| Admission.FindOrCreateGrows | dash/backend/src/modules/cluster-validation/services/cluster-validation.service.ts:161-181 | a lookup only appends, and nothing like an image already stored |
| Admission.FoundAgain | dash/backend/src/modules/cluster-validation/services/cluster-validation.service.ts:161-167 | a stored image is returned, as not new, under every host of its registry |
| Admission.LookupsAgree | dash/backend/src/modules/cluster-validation/services/cluster-validation.service.ts:144-182 | over any run of lookups from no images: at most one image per cluster, name, tag and registry, and a later lookup under any alias returns the first one's image, even if the first one failed after storing it |
| Admission.ClusterValidationService.ValidateRequest | dash/backend/src/modules/cluster-validation/services/cluster-validation.service.ts:39-142 | the loop over containers decides and stores images as `Decide` describes |
| Admission.AllowedExactly | dash/backend/src/modules/cluster-validation/services/cluster-validation.service.ts:50-131 | allowed if and only if enforcement is off, or every container has a scanned image or an exception that lets it through, spelled out in columns, and the scanned images are compliant; and the message of a refusal |
| Admission.ExcusedExactly | dash/backend/src/modules/cluster-validation/services/cluster-validation.service.ts:80-88 | which exceptions excuse an unscanned image: active, in force, for all policies, for the cluster and namespace, for no issue and no scanner, with a pattern that accepts the name or none |
| Admission.SpecificDecideNothing | dash/backend/src/modules/cluster-validation/services/cluster-validation.service.ts:82-83 | dropping every exception for one issue or one scanner changes no reply |
| Admission.CheckedExactly | dash/backend/src/modules/cluster-validation/services/cluster-validation.service.ts:89-92 | the images to check are those of the containers with a scanned one, in order |
| Admission.ScanSorts | dash/backend/src/modules/cluster-validation/services/cluster-validation.service.ts:68-93 | one pass that creates images on the way splits the containers, in order, into checked, excused and held up as the images stored at the end do |
| Admission.AtMostOneIsOrderFree | dash/backend/src/modules/cluster-validation/services/cluster-validation.service.ts:162-167 | with at most one image per registry group the order of aliases does not matter |
| Admission.FailsInVain | dash/backend/src/modules/image/services/image.service.ts:69-96 | a request fails for want of a policy if and only if its cluster has none and its first container without a stored image gets one |
| Admission.AskingAgain | dash/backend/src/modules/cluster-validation/services/cluster-validation.service.ts:39-142 | the same request again, nothing else changed, gets the same answer and stores no further image, whatever order aliases are listed in, if and only if the first one does not store an image in a cluster without a policy; the answer alone is the same if and only if the second one then does so too |
| Admission.SecondAnswerDiffers | dash/backend/src/modules/image/services/image.service.ts:195-231 | a new image in a cluster without a policy: the first request fails, the second is refused |
| FalcoRules.FirstMatch | dash/backend/src/modules/falco/service/falco.service.ts:302-324 | the action of the first rule in the list that matches |
| FalcoRules.RuleIsFor | dash/backend/src/modules/falco/service/falco.service.ts:305-317 | which stored rules are for an event of a cluster, clause by clause |
| FalcoRules.FirstActionIsVerdict | dash/backend/src/modules/falco/service/falco.service.ts:302-324 | that action belongs to an active matching rule of the cluster that no matching rule was created before; none only if none matches |
| FalcoRules.FalcoService.ListActiveFalcoRulesForCluster | dash/backend/src/modules/falco/service/falco.service.ts:278-291 | a list read for this cluster and stored less than a minute before now, or just read; an empty one is always just read; other clusters' caches are untouched |
| FalcoRules.FalcoService.CheckRules | dash/backend/src/modules/falco/service/falco.service.ts:302-324 | a right verdict for the rules as a reading of this cluster found them, which was stored less than a minute before now or was made for this check |
| FalcoRules.HitsAreRecent | dash/backend/src/util/classes/data-cache.ts:17-33 | on every run of overlapping reads, stores, edits and hits: what a hit returns was read for its own cluster from the table of an earlier step and stored less than 60000 ms before |
| FalcoRules.StaleByTheReading | dash/backend/src/util/classes/data-cache.ts:17-33 | a cached list with rules is never served at an age over a bound if and only if the bound allows a minute plus the time its reading took; so never a minute old if and only if reading took no time |
| FalcoRules.ServedTooLate | dash/backend/src/modules/falco/service/falco.service.ts:287-290 | a run on which a deleted rule is served 60999 ms after it was read |
| FalcoRules.CachedIsUncached | dash/backend/src/modules/falco/service/falco.service.ts:278-324 | with no edit since the reading, a cached check gives a right verdict for the current table |
| FalcoAlerts.FalcoEmails.DecideToSend | dash/backend/src/modules/falco/service/falco.service.ts:194-238 | the step up to the decision: the alert is in flight if and only if it qualifies and the row looked up allows it |
| FalcoAlerts.FalcoEmails.SendToNext | dash/backend/src/modules/falco/service/falco.service.ts:245-262 | the step of one recipient: the next one is mailed, and a send that succeeded is recorded |
| FalcoAlerts.FalcoEmails.SendFalcoEmailAlert | dash/backend/src/modules/falco/service/falco.service.ts:194-263 | an undisturbed alert that goes out mails all its recipients in order and records the sends that succeeded; any other does nothing |
| FalcoAlerts.GoesExactly | dash/backend/src/modules/falco/service/falco.service.ts:197-238 | when an alert goes out: settings, their switch, the severity, and the age of the send looked up in days |
| FalcoAlerts.RecipientsExactly | dash/backend/src/modules/falco/service/falco.service.ts:222-243 | all administrators, or the non-blank trimmed entries of the list in order |
| FalcoAlerts.WhatTheLookupDecides | dash/backend/src/modules/falco/dao/falco.dao.ts:306-323 | over the row the database may pick: an e-mail can go out if and only if the earliest send is old enough, and must if and only if all are |
| FalcoAlerts.RunKeepsInv | dash/backend/src/modules/falco/service/falco.service.ts:194-263 | over any run of overlapping alerts: every record comes from an alert in flight, made after its decision, and every success is on record |
| FalcoAlerts.FollowsSomeAlert | dash/backend/src/modules/falco/service/falco.service.ts:230-238 | an alert that goes out when something is on record follows some alert on record by the frequency |
| FalcoAlerts.FirstTwoAreApart | dash/backend/src/modules/falco/service/falco.service.ts:230-238 | whatever the settings: the first two alerts are certain to be the frequency apart if and only if the first has something on record when the second looks, or the frequency has passed by then |
| FalcoAlerts.OverlappingAlertsBothGo | dash/backend/src/modules/falco/service/falco.service.ts:245-262 | a run in which two alerts look before either records, and go out a millisecond apart |
| FalcoAlerts.LatestKeepsAllApart | dash/backend/src/modules/falco/dao/falco.dao.ts:301-319 | were the latest send looked up, an alert would follow every one that has something on record |
| FalcoAlerts.AllAreApartExactly | dash/backend/src/modules/falco/dao/falco.dao.ts:306-323 | over the row the database may pick: an alert is certain not to go out within a frequency of some send on record if and only if all sends are that old or none is |
| FalcoAlerts.ThirdCanFollowAtOnce | dash/backend/src/modules/falco/dao/falco.dao.ts:313-319 | a run without overlap in which the third alert follows the second a millisecond later |
| FalcoHistogram.DaoCounts | dash/backend/src/modules/falco/dao/falco.dao.ts:185-215 | the loop over dates ends and lists the days up to today; grouped counts of those |
| FalcoHistogram.CountsRows | dash/backend/src/modules/falco/dao/falco.dao.ts:200-211 | a count is the number of rows of the cluster and signature on the day |
| FalcoHistogram.GetCountOfFalcoLogsBySignature | dash/backend/src/modules/falco/service/falco.service.ts:53-83 | fifteen consecutive days, each with its count or 0 |
| FalcoHistogram.PickGrouped | dash/backend/src/modules/falco/service/falco.service.ts:70 | filtering the sparse rows for a day gives that day's count inside the window and 0 outside |
| FalcoHistogram.TotalsAgree | dash/backend/src/modules/falco/service/falco.service.ts:64-82 | dense and sparse totals are equal, up to the logs of days that began between the two looks at the clock |
| FalcoHistogram.MidnightIsLost | dash/backend/src/modules/falco/service/falco.service.ts:58-64 | a log of the day that begins between the two looks is counted by the query and missing from the series |
| SchemaPruning.SwaggerDocument.PrunePaths | dash/backend/src/main.ts:47-78 | operations of the tag are kept, paths that lose all theirs go, and references are collected in order |
| SchemaPruning.KeptPathsExactly | dash/backend/src/main.ts:47-78 | which paths stay, and in which order |
| SchemaPruning.KeptOperationsExactly | dash/backend/src/main.ts:48-76 | the operations of the tag stay, in order, with that tag alone |
| SchemaPruning.RootsExactly | dash/backend/src/main.ts:51-83 | pruning starts from the last segments of the references of bodies, but those of `get`, and responses of the operations of the tag, and fails exactly when such a body has none |
| SchemaPruning.LastSegmentExactly | dash/backend/src/main.ts:80-83 | a last segment has no slash and is all that stands behind the last one |
| SchemaPruning.NextExactly | dash/backend/src/main.ts:88-101 | a schema leads to exactly the existing schemas its properties refer to, by the items before the own reference |
| SchemaPruning.SwaggerDocument.FindAllNestedSchema | dash/backend/src/main.ts:85-105 | appends exactly the schemas reached from a name, in the order and with the repetitions of `Visit`; ends when no cycle can be reached |
| SchemaPruning.VisitIsReached | dash/backend/src/main.ts:85-105 | a recursion that ends lists exactly what is reached by references |
| SchemaPruning.SwaggerDocument.Prune | dash/backend/src/main.ts:45-110 | exactly the existing schemas that allowed operations use, directly or through others, are left unchanged; an undefined body reference fails after the paths are cut |
| SchemaPruning.NothingDangles | dash/backend/src/main.ts:107-110 | no reference that was followed leads to a removed schema |
| SchemaPruning.RecursionEndsExactly | dash/backend/src/main.ts:85-105 | the recursion ends, on a deep enough stack, if and only if it can reach no cycle |
| SchemaPruning.SelfReferenceNeverEnds | dash/backend/src/main.ts:85-105 | a schema with a property of its own kind, for which no stack is deep enough |
| AuditDiff.JsonObject.CalculateDiff | dash/backend/src/modules/audit-log/services/audit-log.service.ts:108-132 | the loop over keys turns the object into the difference, whatever the order of keys, or throws exactly when nothing is compared with an object or array |
| AuditDiff.JsonObject.CalculateField | dash/backend/src/modules/audit-log/services/audit-log.service.ts:110-129 | what becomes of one field; an array is compared by length and elements with arrays, strings and objects alike |
| AuditDiff.JsonObject.CalculateObjectDiff | dash/backend/src/modules/audit-log/services/audit-log.service.ts:93-106 | the difference is a fresh object and nothing that existed before is modified |
| AuditDiff.RecoversAll | dash/backend/src/modules/audit-log/services/audit-log.service.ts:108-132 | for states of the same shape the previous state is recovered from difference and updated state |
| AuditDiff.ThrowsExactly | dash/backend/src/modules/audit-log/services/audit-log.service.ts:109-113 | the comparison throws if and only if at some depth an array or an object with fields meets nothing or null |
| AuditDiff.LeafExactly | dash/backend/src/modules/audit-log/services/audit-log.service.ts:123-129 | against any value or none: a leaf is left out exactly when the other is the same, else recorded with the other if there is one |
| AuditDiff.ObjectExactly | dash/backend/src/modules/audit-log/services/audit-log.service.ts:109-111 | against any value: an object is compared field by field and never left out |
| AuditDiff.LeafSurvives | dash/backend/src/modules/audit-log/services/audit-log.service.ts:123-129 | at any depth a leaf is in the difference if and only if it changed, with its old and new value |
| AuditDiff.ArrayIsKeptExactly | dash/backend/src/modules/audit-log/services/audit-log.service.ts:112-122 | against any value that has properties: an array is kept if and only if it has no object or array in it and the other value is the same array, the string of its characters, or an object with that length and those elements; else both are recorded |
| AuditDiff.ArraySurvives | dash/backend/src/modules/audit-log/services/audit-log.service.ts:112-122 | at any depth of states of the same shape an array is kept if and only if it did not change and has no object or array in it; else both values are recorded |
| AuditDiff.ArrayOfObjectsIsRecorded | dash/backend/src/modules/audit-log/services/audit-log.service.ts:117-119 | an unchanged array of an object is recorded as changed |
| AuditDiff.ArrayTurnedString | dash/backend/src/modules/audit-log/services/audit-log.service.ts:112-122 | an array that turned into the string of its characters is taken for unchanged |
| NamespaceSync.NextKeepsInv | dash/backend/src/modules/command-line/services/kubernetes-cluster.service.ts:83-105 | the invariant of every interleaving step of saves, reading and deletion |
| NamespaceSync.SaveExactly | dash/backend/src/modules/namespace/services/namespace.service.ts:89-102 | a save is done at once exactly when a row has its uid, whatever its name, and adds its namespace otherwise |
| NamespaceSync.NeverDeletesALiveOne | dash/backend/src/modules/command-line/services/kubernetes-cluster.service.ts:91-97 | in no interleaving is a listed namespace deleted |
| NamespaceSync.WhenTheSyncReturns | dash/backend/src/modules/command-line/services/kubernetes-cluster.service.ts:83-105 | when the sync has returned nothing is stored but names of saves unfinished at its start, and everything listed once the saves are done |
| NamespaceSync.InStepExactly | dash/backend/src/modules/command-line/services/kubernetes-cluster.service.ts:83-105 | with any saves left over from earlier syncs: stored and listed names are equal after return on every interleaving if and only if every listed name was stored before and no left-over save names another |
| NamespaceSync.CanReturnEarly | dash/backend/src/modules/command-line/services/kubernetes-cluster.service.ts:87-89 | a run that returns with a listed namespace missing |
| HtmlEscape.ChainIsOnePass | dash/backend/src/util/tablify.ts:30-41 | the five replacements chained in any order equal a single pass on exactly the texts without a character that is replaced before `&` |
| HtmlEscape.EscapeIsOnePass | dash/backend/src/util/tablify.ts:30-41 | in the program's order they always do |
| HtmlEscape.AmpMustBeFirst | dash/backend/src/util/tablify.ts:33 | an order works for every text if and only if `&` comes first |
| HtmlEscape.EscapeReadsBack | dash/backend/src/util/tablify.ts:30-41 | reading the entities back undoes the escaping of every text |
| HtmlEscape.EscapedIsInert | dash/backend/src/util/tablify.ts:30-41 | escaped text has no markup character, and each `&` in it opens an entity |
| Tables.TablifyIsHtml | dash/backend/src/util/tablify.ts:1-28 | the printed text is the markup of the grid of texts that the value shows |
| Tables.ShownExactly | dash/backend/src/util/tablify.ts:1-28 | the grid of a value: one column for an array, key before value for an object, texts as they are, and the end of the depth |
| Tables.PrintedAlike | dash/backend/src/util/tablify.ts:1-41 | two values print alike if and only if they show the same grid: no text can add, end or move a cell, and none loses a character |

## Left out

- RegoSplice.LastSyncWins: for both pairs of markers together the condition on blocks is sufficient; the exact one, `OverwriteExactly`, is for one pair.
- Admission.LookupsAgree: for registries that do not change during the run; giving a registry a new alias can merge two groups that each have an image already.
- Admission.AskingAgain: needs stored images that are found in the same way under both orders of aliases; `AtMostOneIsOrderFree` shows this for images stored by lookups.
- SchemaPruning.SwaggerDocument.Prune: called for acyclic references only, which `RecursionEndsExactly` shows to be the ones it returns on.
- ImagePattern.FilterIsLike: for patterns of literal characters, percent signs and dots; a general regular-expression engine is not modelled.
- AuditDiff.RecoversAll: objects inside the state are values, so sharing of nested objects, and dates or other values that `JSON.stringify` changes, are not captured.
- Tables.TablifyIsHtml: a number or truth value at the top is returned as its text, where the program returns the value itself.
- NamespaceSync.InStepExactly: a save whose insert fails is not modelled; the service swallows that error and only records an event.
- A registry request body that carries a column of its own such as `id`, credentials and their removal from replies.
- Registry rows written by the Helm set-up command, which bypasses the service.
- Images stored or removed by the Kubernetes image sync and by scans.
- Parsing of Docker image urls, the compliance check of pods, and the content of replies beyond decision and message.
- Trimming of image patterns on the way into the exceptions table, and columns that no decision reads (title, reason, who changed a row).
- Faults of the database other than refused constraints, and numbers 0 or missing where the program takes them for absent, beyond those named in the contracts.
- Sorting and paging options, nesting of result rows into objects, CSV export, logging and counters.
- The loop of the exceptions service that creates several exceptions and mails about them.
- The map from images to pods built while pods are synced: a plain grouping loop.
- Creating and changing Falco rules in the database; in the runs an edit replaces the table by any other.
- The file and YAML handling around the templates, e-mail texts, and the Angular frontend.
