# Convenios dashboard: verified model of the client-side logic

This project models, in Dafny, the logic layer of a React dashboard for
collective labour agreements ("convenios colectivos"). It covers:

- the process-wide subscription and comparator state;
- the filter engine and the stats aggregator of the main view;
- the publication-list helpers;
- the notification-settings merge logic;
- the arithmetic and click-to-filter handling of the summary cards.

What each part is:

- **Comparator.** A duplicate-free selection of at most three agreement ids.
  It is kept in the insertion order a JavaScript `Set` iterates in, so a full
  comparator evicts its oldest member (`ConveniosContext.Toggled`).
- **Subscription set.** It changes only after the store has confirmed the
  write. The store's answer is an input (`RemoteOutcome`).
- **Filter.** A conjunctive, order-preserving pass (`App.FilterAll`). The
  three successive `filter` calls of `filterConvenios` are proved to compose
  into that single pass.
- **Stats.** The total, the `vigente` count, the `porSector` histogram built
  by a loop, and the count of end dates that fall in `(now, threeMonthsFromNow]`.
  The bound follows JavaScript's `setMonth(getMonth() + 3)`: the month carries
  into the year, and a day the target month lacks rolls into the next month
  (`Calendar`).
- **Publications.** The three-way seen filter, mark-as-viewed, the
  first-match join to agreements, and the badge-colour fallback.
- **Notification settings.** The update-or-insert choice, the insert payload,
  the local merge, and the dialog's id adoption.
- **Summary cards.** "Caducados" is `total - vigentes`. It therefore counts
  `prorrogado` records too, while the filter that card sets is
  `estado == 'derogado'`. `StatsCards.CaducadosFilterMismatch` shows an input
  on which the count and the filter disagree.

Remote calls, the clock and date parsing are parameters:

- `Response<T>` is either `Threw` or `Answered(data)`, and `data` may be null.
- `RemoteOutcome` is the `{ error }` of a subscription write.
- `now` is a `Calendar.DateTime`.
- `parse` stands for `new Date(string)`; it returns `None` for an invalid date.
- `nowIso` stands for `new Date().toISOString()`.

The model follows these details of the code:

- `porSector` counts only truthy sectors (`if (convenio.sector)`), so empty-string and null sectors are both skipped.
- An empty-string end date is falsy, so it is never counted as expiring.
- The expiring window is `endDate > now && endDate <= threeMonthsFromNow`: open at `now`, closed at the bound.
- Eviction removes `Array.from(newSet)[0]`, the earliest-inserted member.
- `refreshSubscriptions` replaces the set only when the listing returns data.
- A failed subscription write rethrows the store's own error.
- In the notification views the store's error answers are not inspected. Only
  a thrown call stops the local update.

## Model

| member | source | states |
|---|---|---|
| ConveniosContext.Without | src/contexts/ConveniosContext.tsx:74-79 | `Set.delete` on an ordered set: the id is gone, every other member stays in order, duplicate-freedom is kept, the size drops by one exactly when the id was present |
| ConveniosContext.WithoutFirst | src/contexts/ConveniosContext.tsx:78-79 | deleting `Array.from(set)[0]` leaves the remaining members in order |
| ConveniosContext.Toggled | src/contexts/ConveniosContext.tsx:72-84 | the updater flips membership of the toggled id and adds no other id; below capacity an added id keeps every earlier member |
| ConveniosContext.ToggleKeepsValid | src/contexts/ConveniosContext.tsx:72-84 | after any toggle the comparator holds at most 3 ids and no duplicates |
| ConveniosContext.ToggleRemovesPresent | src/contexts/ConveniosContext.tsx:74-75 | toggling a present id removes exactly it; every other member stays, in order |
| ConveniosContext.ToggleAddsBelowCapacity | src/contexts/ConveniosContext.tsx:76-82 | an absent id below capacity is appended and no member is lost |
| ConveniosContext.ToggleEvictsOldest | src/contexts/ConveniosContext.tsx:77-81 | an absent id at capacity evicts exactly the earliest-inserted member, is appended, and the size stays 3 |
| ConveniosContext.ToggleTwiceRestores | src/contexts/ConveniosContext.tsx:74-82 | toggling an absent id twice below capacity restores the original selection exactly |
| ConveniosContext.ToggleTwiceAtCapacity | src/contexts/ConveniosContext.tsx:74-82 | toggling an absent id twice at capacity restores its absence, but the evicted oldest member stays lost: the result is the two newest original members |
| ConveniosContext.ToggleTwiceRestoresMembership | src/contexts/ConveniosContext.tsx:74-82 | toggling a present id twice restores membership; the id comes back as the newest member |
| ConveniosContext.ComparadorScenario | src/contexts/ConveniosContext.tsx:71-85 | x, y, z fill the comparator in order; w then evicts x, giving y, z, w |
| ConveniosContext.Flipped | src/contexts/ConveniosContext.tsx:51-63 | a confirmed toggle flips membership of that id and of no other id |
| ConveniosContext.FlipTwice | src/contexts/ConveniosContext.tsx:40-63 | two confirmed toggles of one id restore the subscription set |
| ConveniosContext.IdsOf | src/contexts/ConveniosContext.tsx:28 | the set built from a listing holds exactly the listed `convenio_id`s |
| ConveniosContext.ConveniosState.constructor | src/contexts/ConveniosContext.tsx:18-19 | both state slices start empty; the comparator invariant holds |
| ConveniosContext.ConveniosState.IsSubscribed | src/contexts/ConveniosContext.tsx:87 | the answer is exactly membership in the subscription set |
| ConveniosContext.ConveniosState.IsInComparador | src/contexts/ConveniosContext.tsx:88 | the answer is exactly membership in the comparator |
| ConveniosContext.ConveniosState.ToggleComparador | src/contexts/ConveniosContext.tsx:71-85 | the new selection is the toggle of the old one, the invariant (≤ 3 ids, no duplicates) is kept, and the subscriptions are untouched |
| ConveniosContext.ConveniosState.ToggleSubscription | src/contexts/ConveniosContext.tsx:39-69 | it sends a delete iff the id was subscribed, else an insert; on success membership of that id flips; on an error the set is unchanged and the error goes back to the caller |
| ConveniosContext.ConveniosState.RefreshSubscriptions | src/contexts/ConveniosContext.tsx:21-33 | the set becomes exactly the listed ids when data is returned; it is unchanged for a null payload or a thrown call |
| Text.Lower | src/App.tsx:93-98 | lower-casing keeps the length and folds each character (ASCII) |
| Text.ContainsAt | src/App.tsx:96-98 | `Contains`, the model of `includes`, is true whenever the term occurs as a contiguous block |
| Text.ContainsWitness | src/App.tsx:96-98 | when `Contains` holds the term occurs at some position, so with ContainsAt it is exactly `includes` |
| App.ActiveCriteriaSpec | src/App.tsx:90-108 | `ActiveCriteria`: a criterion is active exactly when its input is non-empty, the search criterion holds the lower-cased term, and there are no others (at most 3) |
| App.FilterAll | src/App.tsx:90-108 | the conjunctive pass never lengthens the list (its full contract is FilterAllSpec) |
| App.FilterAllSpec | src/App.tsx:90-108 | the filtered list is a subsequence of the list (order kept, nothing added); every kept record meets all criteria; every record meeting them is kept |
| App.FilterAllNone | src/App.tsx:90 | with no criterion, the copy `[...convenios]` is the whole list |
| App.FilterAllSnoc | src/App.tsx:94-108 | filtering the result again by one more criterion equals one conjunctive pass |
| App.NarrowStep | src/App.tsx:92-108 | each `if (x) filtered = filtered.filter(...)` step adds its criterion exactly when its input is non-empty |
| App.FilterConvenios | src/App.tsx:89-111 | the three successive narrowings yield the single conjunctive pass over the active criteria |
| App.FilterIdentity | src/App.tsx:89-110 | with empty term, ambito and estado the filtered list equals the full list |
| App.KeptIff | src/App.tsx:92-108 | a record is kept iff the non-empty term occurs case-insensitively in its name, code or sector, and the non-empty ambito and estado match exactly |
| App.NullFieldsDoNotExclude | src/App.tsx:96-98 | a null code or sector never matches, yet the record is still found by its name |
| App.SearchIsCaseInsensitive | src/App.tsx:92-99 | the term "RETAIL" keeps a record whose sector is "Retail" |
| App.CountEstado | src/App.tsx:62 | the number of records with a given estado is at most the list length |
| App.SectorHistogram | src/App.tsx:63-69 | every key of `porSector` is a non-empty sector and its count is between 1 and the number of records |
| App.HistogramCounts | src/App.tsx:63-69 | `porSector` has a key exactly for each non-empty sector seen, and its value is the number of records with that sector |
| App.HistogramSum | src/App.tsx:63-69 | the values of `porSector` sum to the number of records with a non-empty sector |
| App.ExpiresWithin | src/App.tsx:75-79 | a record in the window has a non-empty end date, and then the window (now, limit] is non-empty |
| App.CountExpiring | src/App.tsx:75-79 | the expiring-soon count is at most the list length |
| App.ExpiringNeedsEndDate | src/App.tsx:75-79 | the expiring count over the list equals the count over its end-dated records alone, so records without a (non-empty) end date never count, and it is at most their number |
| App.CalculateStats | src/App.tsx:61-87 | total is the length; vigentes counts `estado == 'vigente'` and is ≤ total; porSector is the histogram the loop builds; proximosVencer counts end dates in (now, now + 3 months] and is ≤ total |
| App.StatsOfEmpty | src/App.tsx:61-87 | an empty list gives `{}` and zero counts |
| App.StatsScenario | src/App.tsx:61-87 | one vigente "Retail" record and one derogado record with no sector give vigentes 1, porSector {"Retail": 1}, none expiring |
| Calendar.SetMonth | src/App.tsx:72-73 | `setMonth(m)` keeps the time of day; from a day 1..31 it gives a valid date that is either month m (carried into the year) with the same day, or the month after with day 1..3 |
| Calendar.ThreeMonthsAfter | src/App.tsx:71-73 | from a valid `now` the bound is a valid instant strictly after it |
| Calendar.ThreeMonthsAfterSpec | src/App.tsx:71-73 | `setMonth(getMonth() + 3)` gives a valid instant strictly after now with the same time of day; the year carries from October on; the day is kept, or rolls to day 1-3 of the following month |
| Calendar.RollsIntoMarch | src/App.tsx:73 | 30 November 2025 moves to 2 March 2026 |
| Calendar.RollsIntoMarchLeap | src/App.tsx:73 | 30 November 2027 moves to 1 March 2028 |
| LatestUpdates.FindConvenio | src/components/LatestUpdates.tsx:33 | `find` returns the first agreement with that id, or none iff no agreement has it |
| LatestUpdates.Attach | src/components/LatestUpdates.tsx:31-34 | the join keeps every publication, in order |
| LatestUpdates.AttachJoinsFirstMatch | src/components/LatestUpdates.tsx:28-34 | each publication's attached agreement has its `convenio_id`, and is absent only when no agreement matches |
| LatestUpdates.LoadPublicaciones | src/components/LatestUpdates.tsx:15-42 | no agreements gives `[]`; a thrown call keeps the old list; otherwise one entry per returned row, in order, a null payload giving none |
| LatestUpdates.LoadWithoutConvenios | src/components/LatestUpdates.tsx:18-23 | with no agreements the list is empty whatever the store would answer |
| LatestUpdates.LoadKeepsRows | src/components/LatestUpdates.tsx:25-36 | a successful load keeps the store's rows in order, each joined to its first matching agreement |
| LatestUpdates.FilterPublicaciones | src/components/LatestUpdates.tsx:62-66 | the shown list is an order-preserving subsequence; 'vistas' keeps exactly the seen, 'no-vistas' exactly the unseen |
| LatestUpdates.FilterTodas | src/components/LatestUpdates.tsx:65 | 'todas' returns the whole list |
| LatestUpdates.SeenFiltersPartition | src/components/LatestUpdates.tsx:62-66 | the lengths of the 'vistas' and 'no-vistas' lists sum to the full length |
| LatestUpdates.MarkAsViewed | src/components/LatestUpdates.tsx:54-56 | the length is kept; the entry with that id gets `visto` true and nothing else changes in it; all other entries are unchanged |
| LatestUpdates.MarkAsViewedIdempotent | src/components/LatestUpdates.tsx:54-56 | marking twice is marking once |
| LatestUpdates.MarkedLeavesNoVistas | src/components/LatestUpdates.tsx:54-66 | after marking, the publication is not in the 'no-vistas' list |
| LatestUpdates.HandleMarkAsViewed | src/components/LatestUpdates.tsx:47-60 | the local mark is applied unless the awaited update threw |
| LatestUpdates.GetTypeColor | src/components/LatestUpdates.tsx:74-82 | the colour is always one of the table's classes, and a listed type gets its own |
| LatestUpdates.TypeColorTable | src/components/LatestUpdates.tsx:74-82 | the four known types get their class; every other type gets the `actualizacion` class |
| Notificaciones.SetFlag | src/components/Notificaciones.tsx:81 | `{ ...cfg, [type]: v }` sets that switch and changes no other field |
| Notificaciones.DefaultConfig | src/components/Notificaciones.tsx:73-80 | the assumed configuration has id '', the agreement's id and both switches off |
| Notificaciones.NewConfigPayload | src/components/Notificaciones.tsx:62-67 | the insert payload has the toggled switch at the new value and the other switch false |
| Notificaciones.ConfigMapLastWins | src/components/Notificaciones.tsx:31-34 | `ConfigMapOf`: the map has a key for exactly the agreements with a row; when rows share an agreement, the later row wins |
| Notificaciones.ConfigMapKeys | src/components/Notificaciones.tsx:31-34 | a key exists exactly for the agreements that have a row |
| Notificaciones.ConfigMapLast | src/components/Notificaciones.tsx:31-34 | the value at a key is the last row for that agreement |
| Notificaciones.BuildConfigMap | src/components/Notificaciones.tsx:31-34 | the `forEach` loop builds that map |
| Notificaciones.FetchConfigs | src/components/Notificaciones.tsx:16-42 | no agreements gives `{}` and sends no query; a query is sent exactly when there are agreements; a thrown call keeps the old map; otherwise the rows are keyed by agreement |
| Notificaciones.MergeToggle | src/components/Notificaciones.tsx:70-83 | the toggled switch takes the new value; the other keeps its prior value, or is false with no prior config; all other agreements are unchanged |
| Notificaciones.HandleToggle | src/components/Notificaciones.tsx:47-90 | the update-by-id path is taken iff a config exists, else the insert path with its payload; the merge happens unless the call threw |
| Notificaciones.SecondToggleUpdatesEmptyId | src/components/Notificaciones.tsx:52-83 | as written, after a first toggle inserts a row the local id stays '', so the second toggle sends an update for id '' |
| Notificaciones.HandleToggleAdopting | src/components/Notificaciones.tsx:47-90 | the corrected toggle sends the same write; unless the call threw, it merges as before and the new configuration takes the inserted row's id |
| Notificaciones.AdoptedIdTargetsInsertedRow | src/components/Notificaciones.tsx:52-83 | with the id adopted, the second toggle updates the row the first one inserted |
| Notificaciones.DisplayedConfig | src/components/Notificaciones.tsx:117-124 | an agreement without a stored config shows both switches off |
| Notificaciones.ToggleFlipsShownSwitch | src/components/Notificaciones.tsx:117-152 | clicking a checkbox flips exactly the switch it shows; that agreement's other switch and all other agreements look the same |
| NotificationModal.ToggledConfig | src/components/NotificationModal.tsx:55-79 | the toggled field becomes `!value`; the id is adopted only when the config had none and the insert returned a row; nothing else changes |
| NotificationModal.NotificationModalState.constructor | src/components/NotificationModal.tsx:14 | the dialog starts with no config |
| NotificationModal.NotificationModalState.FetchConfig | src/components/NotificationModal.tsx:24-50 | a stored row is adopted; a missing one gives id '' with both switches off; a thrown call changes nothing |
| NotificationModal.NotificationModalState.HandleToggle | src/components/NotificationModal.tsx:52-87 | it does nothing without a config; otherwise it sends an update by id when there is an id, else an insert with the payload; a thrown call keeps the config; otherwise the config becomes the toggled one |
| StatsCards.Caducados | src/components/StatsCards.tsx:12 | when vigentes ≤ total the caducados count lies between 0 and the total |
| StatsCards.IsActive | src/components/StatsCards.tsx:69 | an absent filter never activates a card; a clickable card is active exactly when the filter is its own `filterValue` |
| StatsCards.OnClick | src/components/StatsCards.tsx:74-82 | a callback runs only for a clickable card that has one; an active card clears the filter (null); an inactive card sets its `filterValue` |
| StatsCards.TotalCardInert | src/components/StatsCards.tsx:23-83 | the total card never calls back, and it is active exactly when `currentFilter` is null (an absent prop does not count) |
| StatsCards.ClickTwiceClears | src/components/StatsCards.tsx:69-80 | clicking an inactive card sets its filter and makes it active; clicking it again clears the filter |
| StatsCards.CaducadosCountsNonVigentes | src/components/StatsCards.tsx:12 | for the stats of a list, caducados = total - vigentes is non-negative and counts both derogado and prorrogado records |
| StatsCards.CaducadosFilterMismatch | src/components/StatsCards.tsx:12-45 | one prorrogado record shows caducados 1, yet the card's filter `estado == 'derogado'` keeps no record |

## Findings

| source | as written | input that shows it | evidently intended | confidence | as-written member | corrected member |
|---|---|---|---|---|---|---|
| src/components/Notificaciones.tsx:62-83 | the insert does not return the new row, and the merge keeps id '' for an agreement that had no configuration | toggle an agreement with no stored configuration twice: the second toggle sends `update(...).eq('id', '')`, which matches no row, while the page shows the new value | adopt the id of the inserted row, as the dialog does (src/components/NotificationModal.tsx:65-78) | not executed | Notificaciones.SecondToggleUpdatesEmptyId | Notificaciones.HandleToggleAdopting |

## Left out

- Store access through the Supabase client (`select`, `insert`, `update`, `delete`): network I/O against an external service. Each call's result is a parameter of the operation that awaits it.
- `new Date(string)` parsing is the parameter `parse`. The time-zone difference between date-only strings (read as UTC) and local `now` is not modelled. Neither are daylight-saving gaps that `setMonth` could land in.
- `calculateStats` takes two separate clock readings (`now` and the base of `threeMonthsFromNow`). The model uses one reading for both.
- `Calendar.SetMonth` rolls an overflowing day forward by at most one month. That is exact for every date a `Date` can hold (day ≤ 31). Other field values are outside the model.
- `Text.Lower`: it only folds ASCII letters; Unicode case mapping is not modelled.
- Record fields the logic does not read are omitted: publication and validity-start dates, `boletin_oficial`, `contenido`, `datos_completos`, descriptions, URLs and row timestamps. The ordering of publications by date is done by the store; the model keeps the store's order.
- React plumbing is not modelled: `useState`/`useEffect`, loading flags, the "saved" banner and its `setTimeout`, `console.error` logging, the provider check in `useConvenios`, and the dialog's fetch-on-open effect.
- Overlapping in-flight toggles depend on asynchronous interleaving. Toggles are modelled one at a time. So in `Notificaciones.HandleToggle` the rendered map that picks the branch is the same as the `prev` the merge reads.
- App.SectorHistogram: `porSector` is a plain object, and the model treats it as a map. Sector names that are `Object.prototype` members, such as `constructor`, `toString` or `__proto__`, are outside the model. For them the source appends to an inherited value or ignores the assignment.
- Notificaciones.ConfigMapOf: likewise, agreement ids that are `Object.prototype` member names are outside the model of the `configMap` / `configs` object.
- `LatestUpdates.GetTypeColor`: the table is a plain map. A JavaScript object lookup also finds inherited names such as `toString`, which would return that inherited member instead of the fallback class.
- The card markup, its CSS classes and the loading skeleton (which has no buttons) are not modelled. Neither are the display-only components: Sidebar, SearchBar, Comparador, ConveniosList, CompactConveniosList, ConvenioDetail and main.
- View routing in App.tsx (`handleViewChange`, `renderMainContent`) is UI wiring and is not modelled.
