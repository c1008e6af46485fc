# PhraseManager core in Dafny

PhraseManager is a small single-page application for keeping a list of short
phrases. The list is fetched over HTTP and held in a Redux slice. It can be
searched without regard to accents or case, and it is persisted in the
browser's `localStorage`. This project models the logic under the UI and
proves properties of it:

- **Phrase entity** (`Phrases`, `Mappers`).
  - The `isPhrase` guard and the normalising `ensurePhrase` constructor.
  - The newest-first comparator, with the stable sort the code applies.
  - The DTO mappers for API responses.
- **Store slice** (`PhrasesSlice`, `PhrasesSelectors`).
  - Every reducer, the fetch lifecycle, and the error mapping of the `fetchPhrases` thunk.
  - The selectors: query sanitising, diacritic stripping, regular-expression escaping, the case-insensitive filter and the counts.
- **Persistence** (`Persistence`, `Json`).
  - Loading and saving the list under `"phrases.items"`.
  - The store subscription that writes only when the serialised list changed.
- **Facade** (`Facade`): the use-case hook the page talks to.
  - The next-id computation.
  - The load and cancel bookkeeping of in-flight requests, and the once-only initial load.
  - The guarded commands and the status flags.
- **Debounced value** (`DebouncedValue`): the timer engine behind the search box, on a virtual clock.
- **Search box** (`SearchInput`): which value it shows, and when it reports a debounced change, a submit or a clear.
- **HTTP layer** (`Http`, `PhraseHttp`).
  - The `HttpError` normalisation and the request interceptor.
  - The `get` helper and the phrase listing with its abort handling.
- **Configuration and helpers** (`Env`, `Cx`, `ErrorBoundary`).
  - The API base-URL resolution and `cx`.
  - The error boundary and the `withErrorBoundary` wrapper.

Shared modules:

- `Wrappers` defines `Option` and `Result`.
- `JsValues` models the JavaScript values the code inspects.
  - It covers truthiness, property access, `??`, `String()`, `Number()` on strings, and `trim`.
- `Json` models `JSON.stringify`/`JSON.parse` as a serialiser and its parser.
  - It proves that parsing a serialised value gives the value back, and that serialising is injective.

Where the code and its description differ, the model follows the code:

- The facade and the slice have no request generation check.
  - When a request is replaced, the old one is aborted. Its rejection is still dispatched and sets status `failed` ("No se pudo cargar el listado de frases."), even after the newer request has set `pending`.
  - `Facade.ReloadWhileLoading` shows this.
- Through the shared client, `get` never applies its own fallback URL and method.
  - The response interceptor has already turned the failure into an `HttpError`, which `toHttpError` returns unchanged (`Http.GetIgnoresFallbacks`).
- `isPhrase` requires `id` and `text` to be strings. `ensurePhrase` converts any value with `String(...)`.
  - So `ensurePhrase` accepts objects that `isPhrase` rejects, such as a numeric `id` (`Phrases.GuardRejectsNumericId`, `Phrases.EnsureAcceptsNumericId`).

Effects from outside are parameters:

- **Clock**: `Date.now()` is passed in as `now`.
- **Signal**: whether the abort signal had fired.
- **Network**: the outcome of the HTTP request.
- **Environment**: the build-time variables, the window global and the storage contents.

## Model

| member | source | states |
|---|---|---|
| Phrases.EnsurePhrase | src/entities/phrases/model/Phrases.ts:39-63 | accepted exactly when the value is an object whose `String`-converted, trimmed `id` and `text` are non-blank and whose `createdAt` reads as a finite number; the phrase then has those trimmed fields (so it is normalised) and the number as read (a number kept, a numeric string parsed); a non-object gets the "se esperaba un objeto" error |
| Phrases.EnsurePhraseErrors | src/entities/phrases/model/Phrases.ts:13-60 | `null`, `undefined` and non-objects fail both the guard and the constructor; otherwise the constructor reports the first failing check in the order id, text, createdAt, each with its own message |
| Phrases.IsPhrase | src/entities/phrases/model/Phrases.ts:12-30 | a value the guard accepts has non-blank string `id` and `text` and is accepted by the constructor, with those strings trimmed |
| Phrases.GuardRejectsNumericId | src/entities/phrases/model/Phrases.ts:16 | an object with the numeric id 7 fails the guard, which demands a string id |
| Phrases.EnsureAcceptsNumericId | src/entities/phrases/model/Phrases.ts:44-62 | the same object is accepted by the constructor as the phrase with id "7" |
| Phrases.EnsurePhraseOfPhrase | src/entities/phrases/model/Phrases.ts:39-63 | a normalised phrase, as a plain object, passes the guard and is rebuilt unchanged |
| Phrases.EnsurePhraseIdempotent | src/entities/phrases/model/Phrases.ts:44-62 | applying the constructor to its own output gives the same phrase |
| Phrases.CompareByCreatedAtDesc | src/entities/phrases/model/Phrases.ts:71-73 | negative exactly when the first phrase is newer, zero exactly on equal timestamps, positive exactly when it is older |
| Phrases.CompareAntisymmetric | src/entities/phrases/model/Phrases.ts:71-73 | swapping the arguments negates the comparison |
| Phrases.CompareTransitive | src/entities/phrases/model/Phrases.ts:71-73 | the ordering is transitive |
| Phrases.SortByCreatedAtDesc | src/entities/phrases/api/phraseHttp.ts:26 | sorting with the comparator yields a newest-first permutation of the input, of the same length |
| Phrases.SortStable | src/entities/phrases/api/phraseHttp.ts:26 | phrases with the same timestamp keep their relative order |
| Phrases.SortSortedIdentity | src/entities/phrases/api/phraseHttp.ts:26 | an already newest-first list is left as it is |
| Phrases.SortIdempotent | src/entities/phrases/api/phraseHttp.ts:26 | sorting twice is sorting once |
| Phrases.CollectValid | src/app/store/persistence/phrasesPersistence.ts:20-28 | the loop that keeps the accepted entries builds exactly the filtered, mapped list |
| Phrases.CollectMember | src/app/store/persistence/phrasesPersistence.ts:20-28 | a phrase is in the result exactly when some entry is accepted as that phrase |
| Phrases.CollectAppend | src/entities/phrases/lib/mappers.ts:53-61 | filtering a concatenation is concatenating the filtered parts, so input order is kept |
| Phrases.CollectAllOk | src/entities/phrases/lib/mappers.ts:53-61 | when every entry is accepted, the result has one phrase per entry, position by position |
| Mappers.ToPhrase | src/entities/phrases/lib/mappers.ts:19-40 | a falsy DTO is rejected; otherwise accepted exactly when the trimmed `id` and `text` are non-blank and `createdAt` reads as a finite number, giving the trimmed fields and that number |
| Mappers.ToPhraseAgreesWithEnsurePhrase | src/entities/phrases/lib/mappers.ts:19-40 | the DTO mapper accepts exactly what the constructor accepts and yields the same phrase |
| Mappers.ToPhraseNormalized | src/entities/phrases/lib/mappers.ts:22-39 | every mapped phrase is normalised |
| Mappers.NonObjectHasNoId | src/entities/phrases/lib/mappers.ts:20-23 | a value that is not an object has no usable `id`, so the mapper rejects it |
| Mappers.ResponseItems | src/entities/phrases/lib/mappers.ts:47-51 | the entries exist exactly when the payload is an object whose `phrases` is an array |
| Mappers.ToPhraseListFromResponse | src/entities/phrases/lib/mappers.ts:47-64 | the loop that skips DTOs the mapper throws on builds exactly the filtered, mapped entries |
| Mappers.PhrasesOfResponseMember | src/entities/phrases/lib/mappers.ts:53-63 | a phrase is in the list exactly when some entry maps to it |
| Mappers.PhrasesOfResponseValid | src/entities/phrases/lib/mappers.ts:53-63 | every listed phrase is normalised, and there are no more of them than entries |
| Mappers.ToPhraseDto | src/entities/phrases/lib/mappers.ts:71-81 | a missing phrase is rejected; accepted exactly when `id` and `text` are present and non-blank and `createdAt` is finite, copying the fields unchanged |
| Mappers.ToPhraseOfDto | src/entities/phrases/lib/mappers.ts:19-40 | a DTO with non-blank strings maps to the phrase of its trimmed fields |
| Mappers.DtoRoundTrip | src/entities/phrases/lib/mappers.ts:19-81 | a normalised phrase survives conversion to a DTO and back unchanged |
| Mappers.ResponseRoundTrip | src/entities/phrases/lib/mappers.ts:47-64 | a response built from normalised phrases maps back to the same list, in order |
| Mappers.ToNewPhraseDto | src/entities/phrases/lib/mappers.ts:88-101 | fails exactly on blank text, with its message; otherwise carries the trimmed text and the given finite `createdAt`, or the clock value |
| Mappers.NewPhraseDtoFacts | src/entities/phrases/lib/mappers.ts:92-98 | the new DTO's text is trimmed, and a string `createdAt` is replaced by the clock value |
| PhrasesSlice.RejectedMessage | src/app/store/slices/phrasesSlice.ts:152-156 | the stored error is never empty, and is the payload whenever the payload is a non-empty string |
| PhrasesSlice.Reduce | src/app/store/slices/phrasesSlice.ts:85-156 | only `setQuery` changes the query; only the fetch lifecycle changes the status; only the local item actions and a fulfilled fetch change the items; the error is only cleared (by `clearError`, pending, fulfilled) or set to a non-empty text by a rejection |
| PhrasesSlice.PayloadOutcome | src/app/store/slices/phrasesSlice.ts:58-75 | the thunk fulfils exactly when the listing succeeded, and otherwise rejects with a message |
| PhrasesSlice.SettledAction | src/app/store/slices/phrasesSlice.ts:58-75 | a request aborted before its listing settled dispatches a rejection without payload |
| PhrasesSlice.RejectionFails | src/app/store/slices/phrasesSlice.ts:152-156 | every rejection, abort included, sets `failed` with a non-empty error and keeps items and query; an early abort stores the default text |
| PhrasesSlice.ListingAbortReachesState | src/app/store/slices/phrasesSlice.ts:66-69 | a listing cancelled mid-flight stores "Operación cancelada." |
| PhrasesSlice.ListingFailureReachesState | src/app/store/slices/phrasesSlice.ts:70-73 | any other listing failure stores the listing's prefixed message |
| PhrasesSlice.FulfilledStoresListing | src/app/store/slices/phrasesSlice.ts:147-151 | a fulfilled fetch stores the listed phrases, `succeeded`, and no error |
| PhrasesSlice.NoRequestIdentity | src/app/store/slices/phrasesSlice.ts:143-156 | results are applied in arrival order whatever request produced them: a late rejection fails a newer pending fetch, and a late fulfilment overwrites newer items |
| PhrasesSlice.SetQueryKeepsRaw | src/app/store/slices/phrasesSlice.ts:85-87 | the query is stored unnormalised and nothing else changes |
| PhrasesSlice.ClearErrorOnlyError | src/app/store/slices/phrasesSlice.ts:137-139 | only the error is cleared |
| PhrasesSlice.PendingAndFulfilled | src/app/store/slices/phrasesSlice.ts:143-151 | pending sets `pending` with no error; fulfilled sets `succeeded`, no error, and the payload as items |
| PhrasesSlice.RejectedMessageChoice | src/app/store/slices/phrasesSlice.ts:152-156 | rejected sets `failed`, with the payload message or, when there is none, the default text |
| PhrasesSlice.AddPhraseSkips | src/app/store/slices/phrasesSlice.ts:94-99 | a missing phrase, an empty id or an id already present leaves the state unchanged |
| PhrasesSlice.AddPhraseInserts | src/app/store/slices/phrasesSlice.ts:100-102 | otherwise the list grows by exactly the new phrase, stays newest first, and keeps ids unique |
| PhrasesSlice.DeletePhrase | src/app/store/slices/phrasesSlice.ts:109-117 | a blank id changes nothing; otherwise exactly the items with the trimmed id are removed, the rest keep their order, and sortedness and unique ids are kept |
| PhrasesSlice.SetAllOrders | src/app/store/slices/phrasesSlice.ts:122-132 | the items become a newest-first permutation of the payload, or the empty list without one |
| PhrasesSlice.Draft.constructor | src/app/store/slices/phrasesSlice.ts:24-29 | the initial state: no items, empty query, `idle`, no error |
| PhrasesSlice.Draft.SetQuery | src/app/store/slices/phrasesSlice.ts:85-87 | the in-place reducer leaves the state the pure reducer describes |
| PhrasesSlice.Draft.AddPhraseLocal | src/app/store/slices/phrasesSlice.ts:94-103 | the push and in-place sort leave the state the pure reducer describes |
| PhrasesSlice.Draft.DeletePhraseLocal | src/app/store/slices/phrasesSlice.ts:109-117 | the in-place reducer leaves the state the pure reducer describes |
| PhrasesSlice.Draft.SetAllLocal | src/app/store/slices/phrasesSlice.ts:122-132 | the copy-and-sort leaves the state the pure reducer describes |
| PhrasesSlice.Draft.ClearError | src/app/store/slices/phrasesSlice.ts:137-139 | the in-place reducer leaves the state the pure reducer describes |
| PhrasesSlice.Draft.FetchPending | src/app/store/slices/phrasesSlice.ts:143-146 | the in-place reducer leaves the state the pure reducer describes |
| PhrasesSlice.Draft.FetchFulfilled | src/app/store/slices/phrasesSlice.ts:147-151 | the in-place reducer leaves the state the pure reducer describes |
| PhrasesSlice.Draft.FetchRejected | src/app/store/slices/phrasesSlice.ts:152-156 | the in-place reducer leaves the state the pure reducer describes |
| PhrasesSelectors.SanitizeQuery | src/app/store/slices/phrasesSlice.ts:43-45 | the sanitised query is exactly the words of the raw query (its maximal runs of non-white-space characters, in order) joined by single spaces; so it has no surrounding white space and every inner white-space run is one space |
| PhrasesSelectors.TrimCollapseWords | src/app/store/slices/phrasesSlice.ts:43-45 | replacing every white-space run by a space and then trimming gives the words joined by single spaces |
| PhrasesSelectors.CollapseWords | src/app/store/slices/phrasesSlice.ts:44 | the run replacement keeps every word, puts exactly one space between neighbouring words, and at most one at either end |
| PhrasesSelectors.WordLen | src/app/store/slices/phrasesSlice.ts:44 | the leading word ends at the first white-space character or at the end of the text |
| PhrasesSelectors.Words | src/app/store/slices/phrasesSlice.ts:44 | every word is non-empty and holds no white space |
| PhrasesSelectors.SanitizeQueryIdempotent | src/app/store/slices/phrasesSlice.ts:43-45 | sanitising twice is sanitising once |
| PhrasesSelectors.SanitizeBlank | src/app/store/slices/phrasesSlice.ts:43-45 | an all-white-space query sanitises to the empty string |
| PhrasesSelectors.StripDiacriticsFacts | src/app/store/slices/phrasesSlice.ts:36-38 | the stripped text holds no combining mark, and stripping is idempotent |
| PhrasesSelectors.StripDiacriticsAscii | src/app/store/slices/phrasesSlice.ts:36-38 | ASCII text is unchanged |
| PhrasesSelectors.StripDiacritics | src/app/store/slices/phrasesSlice.ts:36-38 | the stripped text is never longer than the input |
| PhrasesSelectors.StripDiacriticsChar | src/app/store/slices/phrasesSlice.ts:36-38 | a single combining mark strips to nothing, and any other character to its base letter |
| PhrasesSelectors.StripDiacriticsAppend | src/app/store/slices/phrasesSlice.ts:36-38 | stripping a concatenation is concatenating the stripped parts |
| PhrasesSelectors.StripAround | src/app/store/slices/phrasesSlice.ts:36-38 | stripping text around one character strips both sides and maps that character alone |
| PhrasesSelectors.StripCancion | src/app/store/slices/phrasesSlice.ts:36-38 | example: the precomposed "canción" strips to "cancion" |
| PhrasesSelectors.StripCancionDecomposed | src/app/store/slices/phrasesSlice.ts:36-38 | example: "cancio", U+0301, "n" strips to "cancion" |
| PhrasesSelectors.EscapeRegExp | src/app/store/slices/phrasesSlice.ts:50-52 | the escaped pattern is never shorter than the literal |
| PhrasesSelectors.EscapeRegExpLiteral | src/app/store/slices/phrasesSlice.ts:50-52 | the escaped pattern matches exactly the literal it was built from |
| PhrasesSelectors.EscapeRegExpInjective | src/app/store/slices/phrasesSlice.ts:50-52 | different literals escape to different patterns |
| PhrasesSelectors.PatternTestIsMatch | src/app/store/slices/phrasesSlice.ts:208-217 | the case-insensitive test of the escaped stripped query is the substring test of the stripped, case-folded texts |
| PhrasesSelectors.SelectAllItems | src/app/store/slices/phrasesSlice.ts:188-191 | every item of the state, newest first: a sorted permutation of the items |
| PhrasesSelectors.SelectAllItemsSorted | src/app/store/slices/phrasesSlice.ts:188-191 | the shortcut for a list of one item or none gives the same list as sorting |
| PhrasesSelectors.SelectIsFiltered | src/app/store/slices/phrasesSlice.ts:196-199 | filtering needs a non-empty sanitised query, and a sanitised query of two or more characters always filters; the minimum of 2 counts UTF-16 units |
| PhrasesSelectors.IsFilteredBlank | src/app/store/slices/phrasesSlice.ts:196-199 | a blank query never filters |
| PhrasesSelectors.AstralQueryFilters | src/app/store/slices/phrasesSlice.ts:196-199 | example: a query of one emoji (two UTF-16 units) filters, a query of one letter does not |
| PhrasesSelectors.FilterByPattern | src/app/store/slices/phrasesSlice.ts:214-216 | the filter never returns more items than it is given |
| PhrasesSelectors.FilterByPatternAppend | src/app/store/slices/phrasesSlice.ts:214-216 | filtering a concatenation concatenates the filtered parts, so the survivors keep their order |
| PhrasesSelectors.SelectFilteredItems | src/app/store/slices/phrasesSlice.ts:208-217 | never more items than the state holds, in newest-first order |
| PhrasesSelectors.FilterByPatternMember | src/app/store/slices/phrasesSlice.ts:208-217 | a phrase survives the filter exactly when its stripped text contains the stripped query, ignoring case |
| PhrasesSelectors.FilterByPatternCount | src/app/store/slices/phrasesSlice.ts:208-217 | a matching phrase survives as often as it occurs, any other phrase not at all |
| PhrasesSelectors.FilterByPatternSorted | src/app/store/slices/phrasesSlice.ts:208-217 | filtering keeps the newest-first order |
| PhrasesSelectors.FilteredInactive | src/app/store/slices/phrasesSlice.ts:208-217 | below the minimum query length, counted in UTF-16 units, the filtered list is the whole sorted list |
| PhrasesSelectors.FilteredActive | src/app/store/slices/phrasesSlice.ts:208-217 | at or above that length it holds exactly the items whose stripped text contains the stripped query, ignoring case, each as often as in the state, newest first |
| PhrasesSelectors.SelectCounts | src/app/store/slices/phrasesSlice.ts:219-225 | the total is the number of items, the filtered count never exceeds it, and equals it when nothing is filtered |
| Persistence.SafeStringify | src/app/store/persistence/phrasesPersistence.ts:80-86 | the serialised list is never the empty string |
| Persistence.LoadPhrasesFromStorage | src/app/store/persistence/phrasesPersistence.ts:11-32 | no window gives the empty list; otherwise the result is `LoadedPhrases` of the given storage (else `localStorage`): empty for a missing or empty entry, unparsable text or a non-array, and otherwise the entries that `ensurePhrase` accepts, normalised, in order |
| Persistence.SavePhrasesToStorage | src/app/store/persistence/phrasesPersistence.ts:39-45 | with a window, one write of the serialised list under `"phrases.items"` to the given storage, no other key touched; without one, nothing |
| Persistence.Subscription.constructor | src/app/store/persistence/phrasesPersistence.ts:54-63 | subscribes with `lastSerialized` empty, writing to the storage from the options or else `localStorage` |
| Persistence.Subscription.Notify | src/app/store/persistence/phrasesPersistence.ts:63-70 | writes, and records the text, exactly when the serialised items differ from the last written text |
| Persistence.Subscription.Unsubscribe | src/app/store/persistence/phrasesPersistence.ts:71 | later notifications do nothing |
| Persistence.LoadRejects | src/app/store/persistence/phrasesPersistence.ts:15-18 | an absent or empty entry, text that does not parse, or a non-array loads as the empty list |
| Persistence.LoadKeepsValid | src/app/store/persistence/phrasesPersistence.ts:20-28 | loading keeps exactly the entries the constructor accepts, normalised, no more than were stored |
| Persistence.SaveLoadRoundTrip | src/app/store/persistence/phrasesPersistence.ts:11-45 | saving normalised phrases and loading them back gives the same list in the same order |
| Persistence.SafeStringifyFacts | src/app/store/persistence/phrasesPersistence.ts:80-86 | an absent list is saved as "[]" like an empty one, and different lists give different texts |
| Persistence.FirstWriteThenSkip | src/app/store/persistence/phrasesPersistence.ts:61-70 | the first notification always writes; a repeat with the same items writes nothing |
| Json.ParseOfStringify | src/app/store/persistence/phrasesPersistence.ts:17-43 | parsing the serialisation of a JSON value gives the value back |
| Json.StringifyInjective | src/app/store/persistence/phrasesPersistence.ts:43 | different JSON values serialise differently |
| Json.Stringify | src/app/store/persistence/phrasesPersistence.ts:43 | the serialisation is never empty and starts with a type marker |
| Json.Parse | src/app/store/persistence/phrasesPersistence.ts:17 | a successful parse gives a JSON value: no `undefined`, no non-finite number |
| Json.ParsedIsJson | src/app/store/persistence/phrasesPersistence.ts:17 | whatever a prefix of the text parses to is a JSON value |
| Json.StringifyEmptyArray | src/app/store/persistence/phrasesPersistence.ts:82 | the empty array serialises as "[]" |
| Facade.MaxNumericIdBounds | src/features/phrases/usecases/usePhrasesFacade.ts:169-175 | the running maximum is at least every numeric id of the list, and is either 0 or one of them |
| Facade.NextIdFrom | src/features/phrases/usecases/usePhrasesFacade.ts:167-176 | the running-maximum loop returns one more than the largest numeric id, in decimal |
| Facade.NextIdOfEmpty | src/features/phrases/usecases/usePhrasesFacade.ts:168 | the empty list gives "1" |
| Facade.NextIdFresh | src/features/phrases/usecases/usePhrasesFacade.ts:169-175 | the next id reads as a number of at least 1, above every numeric id, and is not yet used |
| Facade.StatusFlags | src/features/phrases/usecases/usePhrasesFacade.ts:131-139 | each flag holds exactly for its status |
| Facade.FlagsExactlyOne | src/features/phrases/usecases/usePhrasesFacade.ts:131-139 | exactly one flag holds, and the flags determine the status |
| Facade.AbortAt | src/features/phrases/usecases/usePhrasesFacade.ts:40 | aborting a request marks only that request, and only while it is in flight |
| Facade.PhrasesFacade.constructor | src/features/phrases/usecases/usePhrasesFacade.ts:31-32 | no stored fetch, no request, the init flag clear |
| Facade.PhrasesFacade.Load | src/features/phrases/usecases/usePhrasesFacade.ts:37-44 | aborts the stored fetch if any, starts a new request, stores it as the latest, and dispatches pending |
| Facade.PhrasesFacade.CancelLoad | src/features/phrases/usecases/usePhrasesFacade.ts:49-56 | aborts the stored fetch, a no-op without one; no request is left in flight |
| Facade.PhrasesFacade.Settle | src/app/store/slices/phrasesSlice.ts:58-75 | a settling request dispatches its outcome, a rejection without payload if it was aborted, whether or not it is the latest; a request settles once |
| Facade.PhrasesFacade.InitEffect | src/features/phrases/usecases/usePhrasesFacade.ts:62-69 | the first run loads only when the status is `idle`; later runs do nothing |
| Facade.PhrasesFacade.UpdateQuery | src/features/phrases/usecases/usePhrasesFacade.ts:75-81 | stores the query, a no-op when it is unchanged |
| Facade.PhrasesFacade.ResetQuery | src/features/phrases/usecases/usePhrasesFacade.ts:86-89 | the query becomes empty, nothing else changes |
| Facade.PhrasesFacade.AddPhrase | src/features/phrases/usecases/usePhrasesFacade.ts:97-108 | blank input adds nothing and returns null; otherwise adds and returns the phrase with the next id, the trimmed text and the clock time |
| Facade.PhrasesFacade.RemoveById | src/features/phrases/usecases/usePhrasesFacade.ts:114-121 | a blank id is ignored; otherwise deletes the trimmed id |
| Facade.PhrasesFacade.DismissError | src/features/phrases/usecases/usePhrasesFacade.ts:126-129 | without an error nothing changes; otherwise only the error is cleared |
| Facade.InitOnlyOnce | src/features/phrases/usecases/usePhrasesFacade.ts:62-69 | running the init effect twice starts exactly one request |
| Facade.ReloadWhileLoading | src/features/phrases/usecases/usePhrasesFacade.ts:37-44 | reloading while a request is in flight, then letting the aborted one settle, leaves the state `failed` with the default message although a newer request is running |
| Facade.AddPhraseAlwaysAdds | src/features/phrases/usecases/usePhrasesFacade.ts:97-108 | the phrase built from non-blank input is always added: the list grows by exactly it |
| Facade.RemoveByIdRemoves | src/features/phrases/usecases/usePhrasesFacade.ts:114-121 | after removing, no item carries the trimmed id and all others remain |
| DebouncedValue.Resolve | src/shared/lib/hooks/useDebouncedVaule.ts:25-29 | a number is the delay itself with no `maxWait`; an object's delay defaults to 300 and is clamped at 0; `enabled` defaults to true |
| DebouncedValue.ResolveActive | src/shared/lib/hooks/useDebouncedVaule.ts:25-67 | disabled or non-positive delays deliver at once; omitted options debounce |
| DebouncedValue.Debouncer.constructor | src/shared/lib/hooks/useDebouncedVaule.ts:31-36 | the debounced value starts as the value, with nothing pending |
| DebouncedValue.Debouncer.Cancel | src/shared/lib/hooks/useDebouncedVaule.ts:50-54 | both timers cleared, not debouncing, the debounced value kept |
| DebouncedValue.Debouncer.Flush | src/shared/lib/hooks/useDebouncedVaule.ts:56-59 | the latest value is delivered and nothing stays pending |
| DebouncedValue.Debouncer.SetValue | src/shared/lib/hooks/useDebouncedVaule.ts:61-93 | an unchanged value does nothing; without debouncing the value is delivered; a value equal to the debounced one cancels; any other re-arms the quiet timer and arms `maxWait` once |
| DebouncedValue.Debouncer.Advance | src/shared/lib/hooks/useDebouncedVaule.ts:77-92 | when a deadline passes the latest value is delivered and both timers clear; before that nothing changes |
| DebouncedValue.HeldUntilDelay | src/shared/lib/hooks/useDebouncedVaule.ts:74-82 | a change is held one millisecond short of the delay and delivered at the delay |
| DebouncedValue.FlushIsFinal | src/shared/lib/hooks/useDebouncedVaule.ts:56-59 | after a flush, later time changes nothing |
| DebouncedValue.CancelIsFinal | src/shared/lib/hooks/useDebouncedVaule.ts:50-54 | after a cancel, the shown value stays whatever time passes |
| DebouncedValue.MaxWaitDelivers | src/shared/lib/hooks/useDebouncedVaule.ts:84-88 | example: with a 200 ms delay and 500 ms `maxWait`, changes at 0, 150, 300 and 450 ms push the quiet deadline to 650 ms, yet the `maxWait` timer delivers the latest value at 500 ms |
| SearchInput.SourceValue | src/features/search-phrases/ui/SearchInput.tsx:33-50 | controlled without `onChange` shows the draft, controlled with it the `value` prop, uncontrolled the inner state |
| SearchInput.BoxOptions | src/features/search-phrases/ui/SearchInput.tsx:52-59 | debouncing is active exactly for a positive `debounceMs`, which is then the delay, with no `maxWait` |
| SearchInput.SearchBox.constructor | src/features/search-phrases/ui/SearchInput.tsx:20-61 | the props with their defaults, the draft from `value` or `defaultValue`, and the first value recorded as last emitted |
| SearchInput.SearchBox.ReportDebounced | src/features/search-phrases/ui/SearchInput.tsx:63-68 | reports a changed debounced value once, when it differs from the last emitted value, which it records |
| SearchInput.SearchBox.Render | src/features/search-phrases/ui/SearchInput.tsx:40-68 | feeds the source value to the debouncer and runs the report effect when the debounced value changed |
| SearchInput.SearchBox.SetProp | src/features/search-phrases/ui/SearchInput.tsx:40-68 | a new `value` prop resyncs the draft only when controlled without `onChange`; the render then feeds the debouncer: an unchanged source keeps its timers, reports and last emitted value; with a positive delay nothing is reported and the quiet timer is re-armed exactly when the source differs from the debounced value; with no delay the source is delivered and reported once if new; the clock never moves |
| SearchInput.SearchBox.Change | src/features/search-phrases/ui/SearchInput.tsx:71-81 | updates the draft or inner state and calls `onChange`; with `debounceMs <= 0` reports the value at once; with a positive delay reports nothing, and re-arms the quiet timer only when the source value changed, pending exactly when it differs from the debounced value; an unchanged source keeps the debounced value, both timers and the pending flag; the clock never moves |
| SearchInput.SearchBox.Enter | src/features/search-phrases/ui/SearchInput.tsx:84-97 | flushes, reports the current source value and submits it, without moving the clock |
| SearchInput.SearchBox.Escape | src/features/search-phrases/ui/SearchInput.tsx:98-107 | clears the source, calls `onChange("")`, cancels the pending debounce and reports "" once, recording it as last emitted; the clock never moves and `maxWait` stays unarmed; when the debouncer already held the source nothing is pending and the debounced value is kept; otherwise a positive delay re-arms the quiet timer exactly when "" differs from the debounced value, and no delay delivers "" at once |
| SearchInput.EscapeDropsPending | src/features/search-phrases/ui/SearchInput.tsx:98-107 | example: typing "abc" with a 300 ms delay and pressing Escape reports only "", and nothing is pending however much time passes |
| SearchInput.SearchBox.Advance | src/features/search-phrases/ui/SearchInput.tsx:52-68 | when the quiet period ends the latest value is reported once, unless it was already the last one emitted |
| SearchInput.RapidChangesReportOnce | src/features/search-phrases/ui/SearchInput.tsx:52-68 | example: rapid typing inside the quiet period yields one report carrying the last value |
| SearchInput.ZeroDelayReportsAtOnce | src/features/search-phrases/ui/SearchInput.tsx:77-80 | example: with no delay every change is reported as it happens |
| Http.CauseIfTruthy | src/shared/lib/http/axios.ts:33 | a cause is kept exactly when it is truthy, and it is the thrown value itself |
| Http.ToHttpError | src/shared/lib/http/axios.ts:53-102 | an `HttpError` is returned unchanged; an axios error gets the response status and body, the joined URL, the upper-cased method, its code and itself as cause; anything else has no status, code or body and carries the fallbacks as given and a truthy cause |
| Http.ToHttpErrorIdempotent | src/shared/lib/http/axios.ts:58 | normalising a normalised error changes nothing, whatever the fallbacks (a consequence of the pass-through clause of `ToHttpError`) |
| Http.AxiosMessagePriority | src/shared/lib/http/axios.ts:73-81 | a string body wins, then the server's message field, then the axios message, then "Error HTTP <status> en <method> <url>" |
| Http.ServerMessageField | src/shared/lib/http/axios.ts:73-76 | a body's non-empty `message` becomes the message |
| Http.ServerErrorField | src/shared/lib/http/axios.ts:73-76 | without a truthy `message`, a body's non-empty `error` becomes the message |
| Http.AxiosUrl | src/shared/lib/http/axios.ts:65-66 | the configuration's base URL (or "") followed by its URL, else by the fallback URL (or ""); without a configuration, the fallback alone |
| Http.AxiosMethod | src/shared/lib/http/axios.ts:67-71 | the configuration's method, else the fallback method, upper-cased; "GET" without either |
| Http.AxiosMethodUpper | src/shared/lib/http/axios.ts:67-71 | the method carries no lower-case ASCII letter |
| Http.UnknownErrorMessage | src/shared/lib/http/axios.ts:94-101 | a non-axios error keeps its non-empty message, or gets the default text without one |
| Http.StripLeadingSlashes | src/shared/lib/http/axios.ts:126 | the result is a suffix of the URL that does not start with "/", and everything removed before it is "/" |
| Http.InterceptRequest | src/shared/lib/http/axios.ts:121-129 | the interceptor rewrites the configuration's URL as the normalisation describes and nothing else |
| Http.InterceptedUrl | src/shared/lib/http/axios.ts:121-128 | without a truthy base URL, and for an absent, empty or not slash-led URL, nothing changes; otherwise the URL starts with exactly one slash followed by everything after its leading slashes, and only slashes were dropped |
| Http.InterceptedUrlIdempotent | src/shared/lib/http/axios.ts:121-128 | normalising twice is normalising once |
| Http.ResponseInterceptor | src/shared/lib/http/axios.ts:134-137 | responses pass, and every failure becomes an `HttpError` |
| Http.Get | src/shared/lib/http/axios.ts:153-163 | a success yields the response body |
| Http.GetIgnoresFallbacks | src/shared/lib/http/axios.ts:157-162 | a failure is the error the response interceptor built without fallbacks; a non-axios failure has no URL |
| PhraseHttp.IsAbortLike | src/entities/phrases/api/phraseHttp.ts:58-66 | an `HttpError` is abort-like exactly when it keeps the code "ERR_CANCELED"; an axios error or other `Error` exactly when its code is "ERR_CANCELED" or its name "CanceledError" or "AbortError"; a primitive never |
| PhraseHttp.CreateAbortError | src/entities/phrases/api/phraseHttp.ts:73-78 | an "AbortError" with the fixed message, carrying a cause exactly when a truthy one was given, and itself abort-like |
| PhraseHttp.MessageBase | src/entities/phrases/api/phraseHttp.ts:87-90 | a base exists exactly for a non-empty string message or a non-empty thrown string, and is never empty |
| PhraseHttp.ToMessage | src/entities/phrases/api/phraseHttp.ts:86-94 | the fallback without a base; the base when it already contains the fallback; otherwise the fallback, a space and the base |
| PhraseHttp.ToMessageContainsFallback | src/entities/phrases/api/phraseHttp.ts:92-93 | the message always contains the fallback |
| PhraseHttp.ToMessageIdempotent | src/entities/phrases/api/phraseHttp.ts:86-94 | the prefix is added at most once |
| PhraseHttp.ToMessageShortMessage | src/entities/phrases/api/phraseHttp.ts:93 | a message shorter than the fallback is prefixed |
| PhraseHttp.ListPreAborted | src/entities/phrases/api/phraseHttp.ts:21 | an already aborted signal fails with an `AbortError` whatever the request would return |
| PhraseHttp.ListOutcome | src/entities/phrases/api/phraseHttp.ts:19-36 | resolves exactly when the signal was not aborted and `get` resolved, with a newest-first list; every rejection is an "AbortError" or "Error" object, and is abort-like exactly when the signal was aborted or `get` rejected with an abort-like value |
| PhraseHttp.ListSucceeds | src/entities/phrases/api/phraseHttp.ts:23-27 | a success lists the valid phrases newest first, a permutation of the mapped entries with ties in their order |
| PhraseHttp.ListFails | src/entities/phrases/api/phraseHttp.ts:28-35 | an abort-like failure becomes an `AbortError` caused by it; any other becomes an "Error" whose message contains the fixed text and which is not abort-like |
| PhraseHttp.ListOtherError | src/entities/phrases/api/phraseHttp.ts:30-34 | a failure that is not abort-like becomes an "Error" carrying the prefixed message, with no code and no cause |
| PhraseHttp.ListCanceledObject | src/entities/phrases/api/phraseHttp.ts:58-66 | an object named "CanceledError" counts as an abort |
| PhraseHttp.ListGenericError | src/entities/phrases/api/phraseHttp.ts:30-34 | a short message is prefixed by the fixed text |
| PhraseHttp.ListPrefixedError | src/entities/phrases/api/phraseHttp.ts:30-34 | a message already starting with the fixed text is kept |
| PhraseHttp.CanceledRequestAborts | src/entities/phrases/api/phraseHttp.ts:24-29 | a request axios cancels reaches the caller as an `AbortError` |
| PhraseHttp.PhraseHttp.constructor | src/entities/phrases/api/phraseHttp.ts:9-11 | the path defaults to "/data" |
| PhraseHttp.PhraseHttp.List | src/entities/phrases/api/phraseHttp.ts:19-36 | returns `ListOutcome` of the result of `get` for its path: a newest-first list exactly when the signal was not aborted and `get` resolved, otherwise an `AbortError` or `Error` object, a cancellation exactly when aborted or abort-like |
| PhraseHttp.CreatePhraseHttpApi | src/entities/phrases/api/phraseHttp.ts:44-46 | a fresh client on the given path, "/data" by default |
| Env.IsNonEmptyStringIff | src/shared/config/env.ts:53-55 | a string with a character other than white space |
| Env.SanitizeBaseUrl | src/shared/config/env.ts:62-64 | a prefix of the URL obtained by removing only slashes, and not ending in one |
| Env.SanitizeIdempotent | src/shared/config/env.ts:62-64 | sanitising twice is sanitising once; a URL without a trailing slash is kept |
| Env.SanitizeUnique | src/shared/config/env.ts:63 | the result is exactly the URL with all of its trailing slashes removed |
| Env.ViteFirst | src/shared/config/env.ts:10-14 | a non-blank build-time variable wins |
| Env.GlobalSecond | src/shared/config/env.ts:17-22 | then a non-blank window global |
| Env.DevThird | src/shared/config/env.ts:24-27 | then, in development, the default URL |
| Env.StorageLast | src/shared/config/env.ts:29-40 | then a non-blank stored `api_base_url`; otherwise the configuration error |
| Env.ResolveApiBaseUrl | src/shared/config/env.ts:9-41 | a resolved URL never ends in a slash; resolution fails only outside development, with the configuration message |
| Env.ViteExample | src/shared/config/env.ts:10-13 | example: "https://api.ejemplo.com///" resolves to "https://api.ejemplo.com" |
| Cx.Kept | src/shared/lib/cx.ts:11 | no more tokens than arguments, none of them empty |
| Cx.KeptAppend | src/shared/lib/cx.ts:11 | filtering keeps argument order |
| Cx.ClassNames | src/shared/lib/cx.ts:8-12 | the class string is empty exactly when no argument is truthy |
| Cx.AppendOrder | src/shared/lib/cx.ts:8-12 | the classes of two argument lists are joined by one space, in order |
| Cx.FalsyIgnored | src/shared/lib/cx.ts:11 | `false`, `null`, `undefined` and "" contribute nothing wherever they appear |
| Cx.SingleToken | src/shared/lib/cx.ts:8-12 | one truthy argument among falsy ones gives that token |
| ErrorBoundary.RenderView | src/shared/lib/hoc/withErrorBoundary.tsx:82-101 | the children, keyed by the reset counter, exactly without a truthy error; otherwise `fallbackRender`, then `fallback`, then the default alert |
| ErrorBoundary.RenderFallbackPriority | src/shared/lib/hoc/withErrorBoundary.tsx:82-101 | example, for one node and any truthy error: `fallbackRender` beats `fallback`, and without the error flag the children render |
| ErrorBoundary.ErrorBoundary.constructor | src/shared/lib/hoc/withErrorBoundary.tsx:29-33 | no error, null error value, key 0 |
| ErrorBoundary.ErrorBoundary.Catch | src/shared/lib/hoc/withErrorBoundary.tsx:36-48 | stores the error and calls `onError` once with it and the component stack |
| ErrorBoundary.ErrorBoundary.Reset | src/shared/lib/hoc/withErrorBoundary.tsx:50-57 | clears the error, increments the key by exactly one, then calls `onReset`; the children render again |
| ErrorBoundary.ThrowThenRetry | src/shared/lib/hoc/withErrorBoundary.tsx:36-57 | example: a throw and a reset give one `onError`, one `onReset`, and the children under key 1 |
| ErrorBoundary.HoistNonReactStatics | src/shared/lib/hoc/withErrorBoundary.tsx:122-138 | the copying loop builds exactly the hoisted property map |
| ErrorBoundary.HoistedFacts | src/shared/lib/hoc/withErrorBoundary.tsx:105-138 | React statics and locked keys are never touched, every other listed key gets the source's value, unlisted keys stay |
| ErrorBoundary.WrappedName | src/shared/lib/hoc/withErrorBoundary.tsx:165 | the first non-empty of `displayName` and `name`, else "Component" |
| ErrorBoundary.WrapperDisplayName | src/shared/lib/hoc/withErrorBoundary.tsx:165-166 | "withErrorBoundary(" + the wrapped name + ")" |
| ErrorBoundary.WithErrorBoundary | src/shared/lib/hoc/withErrorBoundary.tsx:146-169 | the wrapper is named, then the wrapped component's statics are hoisted onto it |
| ErrorBoundary.WrapperKeepsName | src/shared/lib/hoc/withErrorBoundary.tsx:146-169 | the wrapper keeps its own name whatever the statics say, and carries the custom statics |
| ErrorBoundary.BaseExample | src/shared/lib/hoc/withErrorBoundary.tsx:165-166 | example: a component named "Base" gives "withErrorBoundary(Base)" |
| JsValues.TrimEnds | src/entities/phrases/model/Phrases.ts:44-45 | trimmed text has no white space at either end |
| JsValues.TrimIdempotent | src/entities/phrases/model/Phrases.ts:44-45 | trimming twice is trimming once |
| JsValues.TrimEmptyIff | src/entities/phrases/model/Phrases.ts:48-49 | the trim is empty exactly for all-white-space text |
| JsValues.Trim | src/entities/phrases/model/Phrases.ts:44-45 | the trimmed text is never longer than the input |
| JsValues.ParseNumber | src/entities/phrases/model/Phrases.ts:55 | blank text reads as 0; a finite reading of other text is a run of digits with at most one leading sign, and a negative one starts with "-" |
| JsValues.Utf16Length | src/app/store/slices/phrasesSlice.ts:198 | `length` counts between one and two UTF-16 units per character, and is zero only for the empty string |
| JsValues.Utf16LengthBmp | src/app/store/slices/phrasesSlice.ts:198 | for text inside the Basic Multilingual Plane, `length` is the character count |
| JsValues.IntToStringRoundTrip | src/features/phrases/usecases/usePhrasesFacade.ts:170-175 | every integer printed in decimal reads back as itself |
| JsValues.ContainsIff | src/entities/phrases/api/phraseHttp.ts:93 | `includes` holds exactly when the text occurs at some position |

## Left out

- Numbers are integers; fractions, exponents, hexadecimal and `-0` are not modelled.
  - `Number()` on other strings reads as NaN here.
  - `nextIdFrom` with fractional ids is not covered.
  - Floating-point timestamps are not covered.
- Facade.NextIdFrom: ids are exact integers. JavaScript numbers are doubles: above 2^53 `max + 1` can round back to `max`, so the next id can equal an existing one. From 10^21 on, `String` prints exponent form. Neither rounding nor exponent form is modelled.
- Facade.NextIdFresh: freshness holds for exact integers only; with ids above 2^53 the source can produce an id already in use.
- Facade.AddPhraseAlwaysAdds: holds for exact integers only; above 2^53 the rounded id can collide, and `addPhraseLocal` then skips the phrase.
- Facade.PhrasesFacade.AddPhrase: the id it assigns is computed on exact integers, with the limits of `Facade.NextIdFrom`.
- Phrases.SortByCreatedAtDesc: `Array.prototype.sort` is modelled as a stable sort function on sequences, not as the in-place sort on the array.
  - The difference is unobservable.
- PhrasesSelectors.StripDiacriticsFacts: NFD stripping is modelled for Latin-1 letters and combining marks only. The case folding of the `i` flag is modelled up to U+00FF.
- PhrasesSelectors.StripDiacritics: its bound `|r| <= |s|` holds for this Latin-1 model only. Full NFD can lengthen text: a Hangul syllable decomposes into two or three jamo, which are not combining marks and stay.
- PhrasesSelectors.PatternTestIsMatch: the regular expression is modelled only for escaped literal patterns. Other pattern syntax is never produced.
- Json: the serialiser is a self-delimiting encoding, not the JSON text syntax. This model also does not handle duplicate keys in `JSON.parse`.
  - Parse/serialise are inverse and injective, which is what the code relies on.
- Persistence: exceptions thrown by the storage are not modelled. This covers `getItem` and `setItem` failing, the quota, and private mode.
  - `safeStringify`'s catch is not modelled, because a phrase list always serialises.
- Http.AxiosMethodUpper: `toUpperCase` is modelled for ASCII letters only.
- Axios client configuration: the 10 s timeout, the headers and real networking are not modelled.
  - The outcome of a request is a parameter.
- Env: the `ENV` constant is evaluated at import time. `console.warn` and the `try` around `localStorage` are not modelled.
  - An unavailable storage is modelled as `Unavailable`.
- Facade.PhrasesFacade.Settle: the RTK thunk, store and selector memoisation (`createAsyncThunk`, `createSlice`, `createSelector`, `store.ts`) are not modelled.
  - The model keeps the order in which actions reach the reducer.
- Facade: React scheduling, re-renders, effect ordering and stale closures are not modelled.
  - The facade reads the current state at each call.
  - Teardown is `CancelLoad`.
- DebouncedValue.Debouncer.constructor: the options are fixed per instance. The callbacks are assumed to keep their identity between renders.
  - Timers are whole milliseconds on a virtual clock.
- SearchInput.SearchBox.SetProp: a controlled parent echoing `onChange` back as `value` is modelled by calling `SetProp`. Rendering and focus are not modelled.
- ErrorBoundary.HoistNonReactStatics: a property whose redefinition throws is modelled by the `locked` key set. Property descriptors are not modelled, and neither is the symbol and name enumeration of `getOwnPropertyNames`.
- ErrorBoundary.ErrorBoundary.Catch: the development-only `console.error` logging is not modelled.
- ErrorBoundary: JSX and the markup of the default fallback are not modelled. A React node is named by its text.
- Mappers.ToPhraseDto: the `TypeError` from destructuring a value that is not an object is not modelled. The input is a phrase record or absent.
- PhrasesSlice.Draft.DeletePhraseLocal: the unused length comparison in `deletePhraseLocal` has no observable effect and is not modelled.
