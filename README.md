# 360-turntable: a verified model of the viewer and catalog logic

This project models in Dafny the part of the 360-turntable site that has logic
of its own. The rest of the site is React presentation.

- **The turntable viewer** (`components/turntable-360.tsx`), module `Turntable` in `turntable.dfy`:
  - how frames are discovered: 25 candidate paths `<dir>/imgNN.jpg`, with the ones that resolve kept in order;
  - the autoplay tick, which bounces the cursor between the first and the last frame;
  - drag scrubbing with a clamped step of one frame per 5 pixels;
  - the play/pause and subject-switch handlers;
  - which screen is rendered.

  The component and its `useDirectoryImages` hook are one class, `Viewer`, whose handlers are methods.
- **The catalog filter/sort panel** (`components/filter-sort.tsx`), module `FilterSort` in `filter_sort.dfy`:
  - the conjunctive three-clause filter, where `"all"` or `hideCategory` turns a clause off;
  - the optional stable sort on one metric, ascending or descending;
  - first-occurrence de-duplication of categories and base colours;
  - the ordered active-filter chips and the badge count;
  - the selection setters.

  The sort is an in-place insertion sort on an array, proved equal to a functional stable sort. The panel's state is the class `FilterSortPanel`.
- **The category accordion** (`components/variant-selector.tsx`), module `VariantSelector` in `variant_selector.dfy`:
  - the per-category table of filter results, a map updated one key at a time;
  - the fallback lookup that decides what a section shows;
  - the single-open toggle;
  - the specialty marker.
- **The comparison-bar label** (`components/comparison-bar.tsx`), module `ComparisonBar` in `comparison_bar.dfy`: the three-way classifier with thresholds 30 and 70.

`catalog.dfy` holds the `Variant` and `Category` records that `FilterSort` and `VariantSelector` share. `wrappers.dfy` holds `Option`.

The cursor does not always name a frame of the loaded sequence.
- The autoplay effect does not depend on `loading`, so the interval already runs during a load.
- On the first load there are no frames yet, so a tick moves the cursor to -1. If the load then finds frames, the viewer shows the placeholder labelled "Frame 0". `Turntable.FirstLoadScenario` walks through this sequence: in the model, the next tick brings the cursor back to frame 0.
- A subject switch resets the cursor to 0, but the interval keeps ticking over the old frames while the new ones load. When that load completes with fewer frames, it does not clamp the cursor, so the cursor can point past the end (`Turntable.LoadFewerFrames`). In the model it stays there until the next tick over the new frames, which clamps it to the last frame (`Turntable.TickAfterShrinkingLoad`), or until a drag of at least 5 pixels (`Turntable.DragAfterShrinkingLoad`).
- In the source the interval callback also sees the frame list as it was when the interval started, because `images` is not in the effect's dependency list. There an out-of-range cursor can last longer than in the model (see "## Left out").
- `CompleteLoad` also applies its result even if the subject changed while it ran, as the hook does.

## Model

| member | source | states |
|---|---|---|
| Turntable.FramePathFormat | components/turntable-360.tsx:27-28 | For frame numbers 1..25, the candidate path is the directory, then `/img`, then the number as exactly two decimal digits with a leading zero below 10, then `.jpg`. It is 10 characters longer than the directory. |
| Turntable.FramePath | components/turntable-360.tsx:28 | The candidate path starts with the directory and "/img", ends with ".jpg", and is at least 10 characters longer than the directory. |
| Turntable.FramePathInjective | components/turntable-360.tsx:27-28 | Different frame numbers in 1..25 give different paths, so the frame list has no duplicate paths. |
| Turntable.FrameNameDigits | components/turntable-360.tsx:28 | `padStart(2, '0')` of a number below 100 is its tens digit followed by its units digit. |
| Turntable.PadStart | components/turntable-360.tsx:28 | A string at least as long as the width is unchanged. A shorter one is brought to the width by leading zeros, and the original string is its suffix. |
| Turntable.FoundNumbers | components/turntable-360.tsx:27-37 | The frame numbers whose probe succeeded, each in 1..n. They are strictly ascending, and every successful number in 1..n is included. |
| Turntable.ProbeCandidates | components/turntable-360.tsx:24-36 | The loop yields exactly 25 results in frame order, 1 to 25. Each result is the frame's path when its probe succeeded and null otherwise. |
| Turntable.Present | components/turntable-360.tsx:37 | The filter keeps the value of every present result, drops every null, and never grows the list. |
| Turntable.Frames | components/turntable-360.tsx:36-37 | The loaded list has one path per successful frame number, at most 25, and its k-th entry is the path of the k-th successful number. |
| Turntable.LoadedFrames | components/turntable-360.tsx:24-37 | The paths the probes report present, taken in order, are exactly the frame list `Frames` of the directory. |
| Turntable.FramesMembership | components/turntable-360.tsx:27-37 | The path of frame i (1..25) is in the loaded list if and only if its probe succeeded. A failed or rejected probe means absent, not an error. |
| Turntable.FramesOrderedAndDistinct | components/turntable-360.tsx:27-37 | The loaded list has the paths of the successful frame numbers in ascending order, and has no duplicates. |
| Turntable.AllFoundNumbers | components/turntable-360.tsx:25-34 | When every probe succeeds, all n candidates are kept. |
| Turntable.Tick | components/turntable-360.tsx:70-83 | For any starting cursor: when cursor+direction reaches or passes the last frame, the cursor stops on the last frame going backward. Otherwise, when it reaches or passes frame 0, the cursor stops on frame 0 going forward. Strictly between, it steps by the direction and keeps it. With at least one frame the result lies in [0, len-1]; with none it is -1 or 0. |
| Turntable.Run | components/turntable-360.tsx:69-84 | Zero firings leave the playhead alone. With at least one frame, any positive number of firings leaves the cursor in [0, len-1], whatever the start. |
| Turntable.RunAdditive | components/turntable-360.tsx:69-84 | Running a+b ticks is running a ticks, then b ticks. |
| Turntable.TickAtLastFrame | components/turntable-360.tsx:74-76 | On 10 frames, a forward tick from the last frame stays there and turns backward. |
| Turntable.TickWithoutFrames | components/turntable-360.tsx:74-80 | With no frames, a forward tick from 0 gives -1 going backward, and the next tick gives 0 going forward. |
| Turntable.BounceForward | components/turntable-360.tsx:70-83 | From frame 0 going forward, k ticks (k ≤ len-1) reach frame k. The direction turns backward exactly at the last frame. |
| Turntable.BounceBackward | components/turntable-360.tsx:70-83 | After reaching the last frame, k more ticks reach frame len-1-k going backward, and the direction turns forward exactly at frame 0. |
| Turntable.BouncePeriodic | components/turntable-360.tsx:70-83 | The bounce has period 2(len-1): there is no wrap-around and no overshoot. |
| Turntable.RunInRange | components/turntable-360.tsx:70-83 | From frame 0 going forward, every number of ticks leaves the cursor in [0, len-1]. The next tick moves it by exactly one frame. |
| Turntable.Scrub | components/turntable-360.tsx:98-106 | Below 5 pixels of travel the index stays. Otherwise the target is index ± floor(\|dx\|/5). The result is the target when it is in [0, len-1], len-1 when the target passes the end, and 0 when the target is below 0 or there are no frames. From a cursor inside the frames it moves by at most that many frames, and only in the direction of the drag. |
| Turntable.ScrubMonotone | components/turntable-360.tsx:98-106 | For a cursor inside the frames and a fixed anchor, the index after a drag never decreases as the pointer moves right. |
| Turntable.ScrubOutOfRangeNotMonotone | components/turntable-360.tsx:98-106 | For a cursor outside the frames, monotonicity fails. At 10 over 5 frames, the anchor leaves 10 but 5 pixels right gives 4. At -1, the anchor leaves -1 but 5 pixels left gives 0. |
| Turntable.PlayForward | components/turntable-360.tsx:66-87 | From frame 0 going forward, n firings before the last frame leave the cursor on frame n, still going forward. |
| Turntable.LoadFewerFrames | components/turntable-360.tsx:18-126 | A switch to a subject whose load finds 5 frames, after 10 firings over the old 25 frames, leaves the cursor on 10 over 5 frames: out of range, still playing forward. |
| Turntable.DragAfterShrinkingLoad | components/turntable-360.tsx:89-108 | After that load, a drag that moves the pointer 5 pixels right moves the cursor back from 10 to 4. |
| Turntable.TickAfterShrinkingLoad | components/turntable-360.tsx:69-84 | After that load, the next firing over the new frames puts the cursor on the last frame, 4, going backward: back in range. |
| Turntable.Viewer.constructor | components/turntable-360.tsx:58-64 | Initially the subject is `/porsche`, loading with no frames and no error, cursor 0, playing forward, not dragging. |
| Turntable.Viewer.BeginLoad | components/turntable-360.tsx:18-19 | A load starts by setting loading and clearing the error, and changes nothing else. |
| Turntable.Viewer.CompleteLoad | components/turntable-360.tsx:24-48 | Loading ends false. With no frame found, the error becomes "No images found in " + directory and the frames are not replaced. Otherwise the frames become the loaded list and the error is untouched. |
| Turntable.Viewer.AutoplayTick | components/turntable-360.tsx:66-87 | Only while playing and not dragging, the cursor and direction take one tick over the current frames. Otherwise nothing changes. With frames, the cursor names a frame afterwards. |
| Turntable.Viewer.MouseDown | components/turntable-360.tsx:89-93 | Starts dragging, anchors at the pointer and pauses playback. |
| Turntable.Viewer.MouseMove | components/turntable-360.tsx:95-108 | A no-op unless dragging. Below one step, neither the index nor the anchor moves, so small moves accumulate. Otherwise the index becomes the scrub result and the anchor becomes the pointer. The direction is never touched. |
| Turntable.Viewer.MouseUp | components/turntable-360.tsx:110-112 | Only stops dragging. Playback stays paused. |
| Turntable.Viewer.TogglePlayPause | components/turntable-360.tsx:114-116 | Flips play state and nothing else. |
| Turntable.Viewer.SwitchTo | components/turntable-360.tsx:118-126 | Selects the subject and resets the cursor to 0, leaving direction and play state alone. A reload happens exactly when the directory changed. |
| Turntable.Viewer.CurrentScreen | components/turntable-360.tsx:128-228 | Priority is loading, then a non-empty error, shown with its message, then the empty state, then the viewer. The viewer shows the cursor's frame, or the placeholder when the cursor is out of range, labelled index+1 of \|images\|. |
| Turntable.FirstLoadScenario | components/turntable-360.tsx:11-87 | From the initial state, after a tick during loading and a successful load, the frames are loaded without error. The placeholder is shown as frame 0 until one more tick brings the cursor to frame 0. |
| FilterSort.Filtered | components/filter-sort.tsx:78-84 | The filter never grows the list, and every kept variant matches all three clauses. |
| FilterSort.Matches | components/filter-sort.tsx:78-84 | "all" in every selection matches every variant. A variant that matches agrees with every selection that is on, and the category selection is ignored under `hideCategory`. A variant whose own category, colour and type are selected matches. |
| FilterSort.FilteredCounts | components/filter-sort.tsx:78-84 | Each variant occurs in the output as often as in the input if it matches, and not at all otherwise. |
| FilterSort.FilteredIsSubsequence | components/filter-sort.tsx:78-84 | The output is a subsequence of the input, so input order is preserved. |
| FilterSort.FilteredAllMatch | components/filter-sort.tsx:78-84 | When every variant matches, the output is the input. |
| FilterSort.FilteredIdempotent | components/filter-sort.tsx:78-84 | Filtering an output again with the same selections returns it unchanged. |
| FilterSort.Compare | components/filter-sort.tsx:88-93 | The comparator is zero exactly on equal keys. It is negative exactly when the first key is smaller for "asc", and larger for "desc". |
| FilterSort.Insert | components/filter-sort.tsx:88-93 | One insertion step adds exactly one element. Its order, members and ties are stated by the Insert lemmas below. |
| FilterSort.StableSorted | components/filter-sort.tsx:88-93 | The sort keeps the length. The sorted, permutation and stability properties are the StableSorted lemmas below. |
| FilterSort.InsertPermutes | components/filter-sort.tsx:88-93 | Insertion adds exactly the inserted variant to the multiset. |
| FilterSort.StableSortedPermutes | components/filter-sort.tsx:88-93 | Sorting is a permutation. |
| FilterSort.StableSortedIsSorted | components/filter-sort.tsx:88-93 | The sorted list is non-decreasing by the comparator `(a[key] - b[key])`, negated for descending. |
| FilterSort.SortedByDirection | components/filter-sort.tsx:89-92 | Sorted means non-decreasing by the key for "asc" and non-increasing for "desc". |
| FilterSort.InsertSorted | components/filter-sort.tsx:88-93 | Inserting into a sorted list keeps it sorted. |
| FilterSort.InsertMembers | components/filter-sort.tsx:88-93 | Insertion adds the inserted variant and nothing else. |
| FilterSort.InsertTies | components/filter-sort.tsx:88-93 | Insertion appends the new variant after every equal-key variant. |
| FilterSort.StableSortedKeepsTies | components/filter-sort.tsx:88-93 | Stability: for each key value, the variants with that value appear in their input order. |
| FilterSort.StableSortedOfSorted | components/filter-sort.tsx:88-93 | An already sorted list is left unchanged by sorting. |
| FilterSort.StableSortedPrefix | components/filter-sort.tsx:88-93 | Sorting the first i+1 variants inserts the (i+1)-th into the sorted first i. |
| FilterSort.ToArray | components/filter-sort.tsx:78 | The fresh array holds the filtered list. |
| FilterSort.InsertLast | components/filter-sort.tsx:88-93 | One insertion step in place. The first i+1 cells become the old i-th element inserted into the first i, and later cells are untouched. |
| FilterSort.SortInPlace | components/filter-sort.tsx:87-94 | `filtered.sort(...)` in place: the array ends as the stable sort of its old contents. |
| FilterSort.Outcome | components/filter-sort.tsx:78-94 | The reported list is at most as long as the input, a permutation of the filtered subsequence, and every entry matches. With no sort it is exactly the filtered subsequence. With a sort it is sorted by the key in the chosen direction, and ties keep filtered order. |
| FilterSort.OutcomeIdempotent | components/filter-sort.tsx:78-94 | Filtering and sorting an output again with the same settings returns it unchanged. |
| FilterSort.OutcomeOfInitialState | components/filter-sort.tsx:30-94 | From the initial selections ("all" everywhere, no sort, "desc") the output equals the input. |
| FilterSort.FirstByKey | components/filter-sort.tsx:44-47 | De-duplication never grows the list, and keeps only entries of the input. |
| FilterSort.FirstByKeySubsequence | components/filter-sort.tsx:44-47 | De-duplication keeps a subsequence of its input. |
| FilterSort.FirstByKeyDistinct | components/filter-sort.tsx:44-47 | No two kept entries share a key. |
| FilterSort.FirstByKeyFirst | components/filter-sort.tsx:47 | Each kept entry is the first entry of its key in the input (`findIndex(...) === index`). |
| FilterSort.FirstByKeyOrder | components/filter-sort.tsx:44-47 | Kept entries come in order of first appearance: wherever a later kept key occurs in the input, an earlier kept key has occurred before it. |
| FilterSort.FirstByKeyCovers | components/filter-sort.tsx:44-47 | Every key of the input has a kept entry. |
| FilterSort.Categories | components/filter-sort.tsx:44 | The category options are distinct, every variant's category is one, and each comes from some variant. They are a subsequence of the variants' categories, in order of first appearance as a `Set` keeps insertion order: an earlier option's first variant comes strictly before a later option's. |
| FilterSort.IndexOf | components/filter-sort.tsx:44 | `indexOf`: the position of the first occurrence, or the length when there is none. |
| FilterSort.CategoriesOrder | components/filter-sort.tsx:44 | An earlier category option first occurs among the variants strictly before a later one. |
| FilterSort.CategoriesCover | components/filter-sort.tsx:44 | Every variant's category is among the options. |
| FilterSort.CategoriesFromVariants | components/filter-sort.tsx:44 | Each option is the category of some variant. |
| FilterSort.BaseColors | components/filter-sort.tsx:45-47 | The colour options are distinct by name, and every variant's colour name has one. Each is the colour of the first variant with that name, so its hex is kept. |
| FilterSort.FindColor | components/filter-sort.tsx:60 | `find` fails exactly when no colour has the name. Otherwise it returns the first colour with that name. |
| FilterSort.Capitalize | components/filter-sort.tsx:55 | Same length. An ASCII lower-case first letter becomes upper case, and the rest is unchanged. |
| FilterSort.ActiveFilterList | components/filter-sort.tsx:49-75 | There are at most three chips, and none when every selection is "all". |
| FilterSort.ActiveFilterKinds | components/filter-sort.tsx:49-75 | There are at most three chips. The category chip is present if and only if its selection is not "all" and the category is not hidden; the colour and type chips if and only if their selections are not "all". |
| FilterSort.ActiveFilterOrder | components/filter-sort.tsx:49-75 | The chips come in the order category, base colour, refraction type. |
| FilterSort.ActiveFilterContents | components/filter-sort.tsx:51-75 | Each chip's value is its selection. The label is the capitalised selection, or the colour name as is. The colour chip carries the hex of the first listed colour of that name, if any. |
| FilterSort.BadgeCount | components/filter-sort.tsx:160-162 | The badge is the number of active clauses plus one for an active sort, at most 4. It is zero (hidden) exactly when there is no chip and no sort. |
| FilterSort.FilterSortPanel.constructor | components/filter-sort.tsx:30-35 | Initial selections are "all", with no sort, direction "desc", and a count equal to the number of variants. |
| FilterSort.FilterSortPanel.ActiveFilters | components/filter-sort.tsx:49-75 | The pushed chips are the active-filter list of the current selection over the panel's colour options. |
| FilterSort.FilterSortPanel.Refresh | components/filter-sort.tsx:77-97 | The reported list is the filtered and sorted outcome of the current settings. `filteredCount` becomes its length, which is at most the number of variants. |
| FilterSort.FilterSortPanel.RemoveFilter | components/filter-sort.tsx:109-121 | Resets only the named selection to "all". An unknown name changes nothing, and sort settings are kept. |
| FilterSort.FilterSortPanel.HandleFilterChange | components/filter-sort.tsx:127-139 | Sets only the named selection. An unknown name changes nothing. |
| FilterSort.FilterSortPanel.RemoveSort | components/filter-sort.tsx:123-125 | Clears the sort key, keeps the direction, and keeps the selections. |
| FilterSort.FilterSortPanel.HandleSortChange | components/filter-sort.tsx:141-146 | Sets the key. It changes the direction only when a direction is given. |
| VariantSelector.WithFilterResult | components/variant-selector.tsx:25-30 | The entry for the category becomes the reported list. Every other entry is unchanged, and no other key appears. |
| VariantSelector.ShownVariants | components/variant-selector.tsx:37 | A section shows the stored list when its category has one, even an empty one, and otherwise the category's own variants. |
| VariantSelector.ShownInitially | components/variant-selector.tsx:23-37 | Before any report, a section shows all its category's variants. |
| VariantSelector.ShownAfterReport | components/variant-selector.tsx:25-37 | A report changes what its own section shows to the reported list, and leaves every other section alone. |
| VariantSelector.EmptyReportShowsNothing | components/variant-selector.tsx:37 | A stored empty list is shown as empty and does not fall back to the whole category, because an array is truthy. |
| VariantSelector.ShownAfterFilterPanel | components/variant-selector.tsx:37-66 | Once a section's panel has reported, the section shows only its category's own variants, none more often than in the category. So "n of m variants" has n ≤ m. |
| VariantSelector.IsSpecialty | components/variant-selector.tsx:73 | A variant is marked exactly when a panel whose only selection is the "Specialty" colour keeps it. |
| VariantSelector.SpecialtyFilterMarksAll | components/variant-selector.tsx:73 | With the "Specialty" base colour selected, every variant shown carries the specialty marker. |
| VariantSelector.Toggled | components/variant-selector.tsx:43 | The click closes everything exactly when the clicked section was open. Otherwise the clicked section becomes the open one. |
| VariantSelector.AtMostOneOpen | components/variant-selector.tsx:36 | With distinct category names, at most one section is open, whatever the open name. |
| VariantSelector.ToggleOpensAtMostClicked | components/variant-selector.tsx:36-43 | Clicking the open section closes all sections. Clicking another opens exactly that one. |
| VariantSelector.Selector.constructor | components/variant-selector.tsx:21-23 | Initially the first category is open and no results are stored. |
| VariantSelector.Selector.HandleCategoryFilterChange | components/variant-selector.tsx:25-30 | The stored table becomes the one-key update of the old table. |
| VariantSelector.Selector.OnOpenChange | components/variant-selector.tsx:43 | The open name becomes "" if the clicked section was open, and the clicked name otherwise. |
| VariantSelector.Selector.Section | components/variant-selector.tsx:36-51 | A section is open exactly when its name is the open one. It shows the stored list, or the whole category when nothing is stored, and counts the category's variants. |
| ComparisonBar.ZoneOf | components/comparison-bar.tsx:34 | Exactly one zone per value: left below 30, right above 70, balanced for 30..70 with both bounds included. |
| ComparisonBar.Label | components/comparison-bar.tsx:34 | The text is the label of the value's zone: the left label, "BALANCED" or the right label. |
| ComparisonBar.BoundariesAreBalanced | components/comparison-bar.tsx:34 | 30 and 70 give "BALANCED". 29 gives the left label and 71 the right. |
| ComparisonBar.ZoneMonotone | components/comparison-bar.tsx:34 | As the value grows, the label moves only from left to balanced to right. |

## Left out

- HTTP probes, `Promise.all` and async/await: each HEAD probe's outcome is the parameter `found(i)`, and a rejected probe is `false`.
- The `'Failed to load images'` fallback message: it is unreachable here, since only an `Error` is thrown.
- Load cancellation: the hook has no generation guard, so a stale load is applied like a current one. The model does the same and does not model concurrent loads interleaving.
- `setInterval`, its 200 ms cadence and React effect scheduling: one firing of the interval is a method call.
- Turntable.Viewer.AutoplayTick: it uses the current frame count. The source's callback may see a stale `images` from its closure, which is not modelled.
- The rotation-degree read-out, the progress-circle geometry and the animated counters: they are floating-point displays.
- Pointer coordinates are modelled as integers; `clientX` may be fractional.
- Browser APIs: mobile detection, portals, drawers, observers and animation libraries.
- FilterSort.Capitalize: `toUpperCase` is modelled for ASCII letters only. Other characters are left unchanged rather than locale-mapped.
- Metrics are modelled as integers. A fractional or NaN `cleanVsBusy` or sort key is not modelled.
- FilterSort.ToArray: the fresh array that `filter` returns is modelled by copying the filtered sequence into a new array.
- The JSX markup, the drawer-open flag and the mounted flag are not modelled, and neither are the presentational components (`variant-card`, `variant-header`, `variant-properties`, `variant-metrics`, `variant-categories`, `variant-selector_STREAMLINE`, `app/page.tsx`).
- VariantSelector.Selector.constructor: it requires at least one category. With none, the source fails with a TypeError reading `categories[0].name`, and that failure is not modelled.
- The data module `@/lib/data` is not part of this model: `Variant` is a record with integer metrics, and the category list is a given sequence.

## Findings

| source | as written | input that shows it | evidently intended | confidence | as-written member | corrected member |
|---|---|---|---|---|---|---|
| components/turntable-360.tsx:104 | The drag clamps the new index, but the cursor it starts from is not clamped. After a load brings fewer frames the cursor can sit past the end, and a rightward drag then moves it back. | Cursor 10 over 5 frames: dx 0 leaves 10, and dx 5 gives 4. Cursor -1: dx 0 leaves -1, and dx -5 gives 0. | Dragging the pointer right never moves to an earlier frame. | medium, not executed | Turntable.ScrubOutOfRangeNotMonotone | Turntable.ScrubMonotone |
