# SIAN FILM page: interactive core in Dafny

The site is a single client-rendered page (`app/page.tsx`). Most of it is
static copy and layout. What behaves is a handful of small state machines
and list computations, and this project models those:

- **Tab router** (`router.dfy`, module `Router`). The address fragment selects
  one of `home | gallery | packages | notice | faq`. The fragment is read on
  load and on `hashchange`. Choosing a tab writes `#<tab>` back. Unknown or
  empty fragments fall back to `home`. The fragment text is modelled as
  `replace("#", "")` really behaves: only the first `#` is removed, wherever
  it stands.
- **Hero slideshow** (`slideshow.dfy`, module `Slideshow`). An index over the
  main images steps forward and back with wrap-around. Two stored booleans,
  `paused` and `userPaused`, are driven by three events: a user toggle
  (button or Space), the document becoming hidden, and it becoming visible.
  The autoplay interval exists only when there is more than one image, the
  slideshow is not paused, and reduced motion is off.
- **Gallery ordering** (`ordering.dfy`, module `Ordering`). `parseN` takes the
  number in the leftmost `g-<digits>.` of a path, or `MAX_SAFE_INTEGER` when
  there is none. A copy of the image list is sorted by that key with a stable
  sort.
- **Pagination** (`pagination.dfy`, module `Pagination`). The ordered list is
  cut into pages of 10 by a loop. An empty list gives a single empty page.
- **Gallery and lightbox** (`gallery.dfy`, module `Gallery`). The state is the
  current page, the modal's open flag, its index within the page, and the
  element that had focus when it opened. The model covers wrap-around `go`,
  Escape and the arrow keys, `goPage` and its three callers, the placeholder
  cells, the 1-based image labels and the position indicator.
- **Package accordion** (`packages.dfy`, module `Packages`). At most one card
  is expanded. Selecting the open card closes it. Switching the year
  collapses every card.
- **Text helpers** (`text.dfy`, module `Text`): `clsx`, `String(n)`,
  `padStart`, and the decimal value of a digit run.

Each component whose fields the page updates in place (`tab`, `idx`/`paused`/
`userPaused`, `page`/`open`/`focusIdx`/`lastFocusedRef`, `openedKey`/`year`)
is a class whose methods state the whole new state. The transitions and
list computations are also functions, and the properties are proved about
those functions as lemmas.

Behaviour of `app/page.tsx` that the model keeps as written:
- `goPage` takes its argument as it is. An out-of-range page shows no images (`pages[page] ?? []`). Only its callers clamp.
- A tab change touches only the tab and the address fragment; the scroll position of the content area is not part of the state.
- `paused` is a stored flag, not derived from "paused by the user or hidden".
  It equals that derived value as long as no toggle arrives while the
  document is hidden (`PausedTracksCauses`). A toggle while hidden resumes play
  (`ToggleWhileHiddenResumes`). Browsers do not normally deliver such a toggle.
- On mount `paused` starts false even if the document is already hidden.
- With no main images the slideshow would compute `% 0`. The model's
  constructor requires at least one image; the page ships six.

## Model

| member | source | states |
|---|---|---|
| Router.FromHash | app/page.tsx:1016-1017 | the tab's name equals the fragment exactly when the fragment is one of the five names (case-sensitive); any other string selects home |
| Router.FirstHash | app/page.tsx:1019 | the index found is the first '#' of the string, or its length when there is none |
| Router.RemoveFirstHash | app/page.tsx:1019 | `replace("#", "")` deletes exactly the first '#' and keeps everything else; a string without '#' is unchanged |
| Router.FragmentText | app/page.tsx:1019 | the text read from the address is never empty; an empty fragment reads as "home"; a fragment `#x` with `x` non-empty reads as `x`, and a non-empty text without '#' is returned as it is |
| Router.ReadTab | app/page.tsx:1019-1020 | the tab selected on load and on `hashchange`: `fromHash` of the fragment text; its properties are `WriteThenRead` and `ReadTabExamples` |
| Router.WriteTab | app/page.tsx:1032 | the fragment `#t` that `onChange` writes; `WriteThenRead` reads it back as `t` |
| Router.WriteThenRead | app/page.tsx:1019-1020 | writing `#t` for any tab and reading it back gives `t` |
| Router.ReadTabExamples | app/page.tsx:1019-1020 | "" and "#nonsense" select home; "#gallery" selects gallery |
| Router.NameInjective | app/page.tsx:9 | distinct tabs have distinct fragment names |
| Router.TabRouter.constructor | app/page.tsx:1012-1020 | on load the tab is the one the current fragment selects |
| Router.TabRouter.OnHashChange | app/page.tsx:1022-1027 | after an external fragment change the tab follows the new fragment |
| Router.TabRouter.OnChange | app/page.tsx:1030-1033 | choosing a tab shows it, writes `#t`, and leaves tab and fragment in sync |
| Slideshow.NextIndex | app/page.tsx:473 | the next index is in range, one more, or 0 after the last |
| Slideshow.PrevIndex | app/page.tsx:474 | the previous index is in range, one less, or the last before 0 |
| Slideshow.PrevUndoesNext | app/page.tsx:473-474 | prev after next, and next after prev, return to the same index |
| Slideshow.Step | app/page.tsx:484-491 | one toggle, hidden or visible event on `paused`/`userPaused`; its effect is stated by `StepEffect` |
| Slideshow.Run | app/page.tsx:498-504 | events applied in order; `RunConsistent` and `UserPauseSticky` hold over it |
| Slideshow.AutoplayOn | app/page.tsx:478 | the guard of the autoplay effect: more than one image, not paused, no reduced motion; used by `HiddenStopsAutoplay` and `UserPauseStopsAutoplay` |
| Slideshow.Controller.TimerRunning | app/page.tsx:478 | whether the controller's autoplay interval exists, `AutoplayOn` of its state; `Tick` requires it |
| Slideshow.StepEffect | app/page.tsx:484-491 | toggle flips paused and records it as userPaused; hidden pauses and keeps userPaused; visible sets paused to userPaused; each keeps userPaused implies paused |
| Slideshow.RunConsistent | app/page.tsx:498-504 | userPaused implies paused after any sequence of toggles and visibility changes |
| Slideshow.UserPauseSticky | app/page.tsx:485-488 | visibility changes never alter userPaused |
| Slideshow.HiddenStopsAutoplay | app/page.tsx:477-488 | after the document is hidden the autoplay interval is off |
| Slideshow.UserPauseStopsAutoplay | app/page.tsx:477-481 | in every state reachable from mount, a user pause means no autoplay |
| Slideshow.PausedTracksCauses | app/page.tsx:556-563 | paused equals "user paused or hidden" after each event, provided no toggle arrives while hidden |
| Slideshow.ToggleWhileHiddenResumes | app/page.tsx:486 | a toggle while hidden unpauses although the document is hidden |
| Slideshow.Controller.Current | app/page.tsx:511 | the image shown is one of the main images |
| Slideshow.Controller.constructor | app/page.tsx:467-470 | mount shows slide 0, not paused, not user-paused |
| Slideshow.Controller.Next | app/page.tsx:473 | index advances with wrap-around; pause state untouched |
| Slideshow.Controller.Prev | app/page.tsx:474 | index steps back with wrap-around; pause state untouched |
| Slideshow.Controller.TogglePause | app/page.tsx:556-563 | the play/pause button applies the toggle transition; index untouched |
| Slideshow.Controller.OnVisibilityChange | app/page.tsx:485-488 | hidden and visible apply their transitions; index untouched |
| Slideshow.Controller.Tick | app/page.tsx:477-481 | an interval tick happens only while autoplay is on and advances the index |
| Slideshow.Controller.OnKey | app/page.tsx:495-505 | ArrowRight steps forward, ArrowLeft back, Space or "Spacebar" toggles and alone prevents the default; other keys change nothing |
| Text.DigitChar | app/page.tsx:773 | the character written for a digit is a digit with that value |
| Text.Decimal | app/page.tsx:773 | `String(n)` is a non-empty digit string with no leading zero that reads back as `n` |
| Text.PadStart | app/page.tsx:773 | `padStart` gives length max(len, width), keeps the string as suffix and fills the rest |
| Text.DecimalValue | app/page.tsx:586 | `Number(m[1])` on a digit run; `LeadingZeros` and `Decimal` state how it reads |
| Text.LeadingZeros | app/page.tsx:586 | leading zeros do not change a digit run's value (`g-01` is 1) |
| Text.PaddedReadsBack | app/page.tsx:773 | the zero-padded indicator number reads back as `n`, and is two characters below 100 |
| Text.Truthy | app/page.tsx:33 | `Boolean` on a part: only a non-empty string; `Kept` keeps exactly the truthy parts |
| Text.Kept | app/page.tsx:33 | `filter(Boolean)` keeps only non-empty strings, every truthy part is kept, and every kept string is one of the parts |
| Text.KeptSingle | app/page.tsx:33 | one part is kept exactly when it is truthy; with `KeptAppend` this fixes the kept list and its order for every input |
| Text.KeptAppend | app/page.tsx:33 | filtering two groups gives the two filtered groups in order |
| Text.Join | app/page.tsx:33 | `join(" ")`; `JoinAppend` and `JoinNonEmpty` state how it composes and when it is empty |
| Text.Clsx | app/page.tsx:32-34 | the truthy parts joined by spaces; pinned down by `ClsxSingle` and `ClsxAppend` |
| Text.ClsxSingle | app/page.tsx:32-34 | `clsx` of one part is that string when truthy and "" otherwise |
| Text.ClsxEmpty | app/page.tsx:32-34 | `clsx` is "" exactly when no part is truthy |
| Text.ClsxAppend | app/page.tsx:32-34 | `clsx` of two groups is their results joined by one space, an empty side contributing nothing |
| Ordering.DigitRun | app/page.tsx:585 | the run found is all digits and maximal |
| Ordering.MatchesAt | app/page.tsx:585 | `/g-(\d+)\./` matches at a position: `g-`, at least one digit, then `.`; `FindMatch` finds the leftmost such position |
| Ordering.Captured | app/page.tsx:585-586 | a match captures a non-empty digit string |
| Ordering.FindMatch | app/page.tsx:585 | `match` finds the leftmost position where `g-(\d+)\.` matches, or reports that none does |
| Ordering.ParseN | app/page.tsx:584-587 | `parseN`: the leftmost match's number or `MAX_SAFE_INTEGER`; stated by `ParseNNoMatch`, `ParseNLeftmost` and `ParseNOfName` |
| Ordering.ParseNNoMatch | app/page.tsx:586 | a path without a match gets `MAX_SAFE_INTEGER` |
| Ordering.ParseNLeftmost | app/page.tsx:585-586 | a path gets the value of the digits captured by its leftmost match |
| Ordering.ParseNOfName | app/page.tsx:584-587 | `<prefix>g-<digits>.<rest>` with no "g-" in the prefix gets the value of its digits |
| Ordering.GalleryFileKey | app/page.tsx:75-106 | the shipped names `/images/gallery/g-NN.JPG` get key `NN` |
| Ordering.Insert | app/page.tsx:588 | one insertion step of the stable sort: the element goes after every element with a smaller key, before the first whose key is not below its own; stated by `InsertSorted`, `InsertPermutes` and `InsertStable` |
| Ordering.InsertSorted | app/page.tsx:588 | insertion keeps a key-sorted list sorted |
| Ordering.InsertPermutes | app/page.tsx:588 | insertion adds exactly the one element |
| Ordering.SortBy | app/page.tsx:588 | the sorted copy is a permutation of the input with non-decreasing keys |
| Ordering.SortStable | app/page.tsx:588 | elements with equal keys keep their input order |
| Ordering.SortedUnchanged | app/page.tsx:582-588 | input already in key order comes back unchanged |
| Ordering.Ordered | app/page.tsx:583-589 | the gallery's `ordered` is a permutation of the images with non-decreasing `parseN` keys; `OrderedSpec` adds stability |
| Ordering.OrderedSpec | app/page.tsx:583-589 | the gallery order is a stable, key-sorted permutation of IMAGES in which every name keyed `MAX_SAFE_INTEGER` comes after every name with a smaller key |
| Pagination.Chunks | app/page.tsx:595 | the consecutive `slice(i, i + size)` of the loop; stated by `FlattenChunks`, `ChunkSizes`, `ChunkCount` and `ChunkAt` |
| Pagination.Pages | app/page.tsx:593-597 | `out.length ? out : [[]]`: there is always at least one page; `PagesSpec` states the whole shape |
| Pagination.FlattenChunks | app/page.tsx:595 | the slices concatenate back to the list |
| Pagination.ChunkSizes | app/page.tsx:595 | each slice is non-empty and at most a page; all but the last are full |
| Pagination.ChunkCount | app/page.tsx:595 | the number of slices is the least `c` with N ≤ c·size; the last holds the remainder |
| Pagination.ChunkAt | app/page.tsx:595 | item `i` of slice `p` is item `p·size + i` of the list |
| Pagination.PagesSpec | app/page.tsx:592-597 | pages concatenate to `ordered`, hold at most 10, all but the last exactly 10, and an empty list gives one empty page |
| Pagination.PageAt | app/page.tsx:595 | item `i` of page `p` is `ordered[p·10 + i]` |
| Pagination.PageCount | app/page.tsx:596-601 | `pageCount` is ceil(N/10) for N > 0 and 1 for N = 0 |
| Pagination.CeilDiv | app/page.tsx:601 | the ceiling-division form of the page count |
| Pagination.ChunksStep | app/page.tsx:595 | one loop turn pushes `ordered.slice(i, i + size)` |
| Pagination.Paginate | app/page.tsx:593-597 | the `for` loop with `push` builds exactly the pages |
| Pagination.ThirtyImages | app/page.tsx:75-106 | the 30 shipped images make 3 pages of 10 |
| Pagination.TwentySevenImages | app/page.tsx:592-597 | 27 images make pages of 10, 10, 7 (and 15, 12 with pages of 15) |
| Gallery.Stepped | app/page.tsx:618-621 | `go` stays in range and steps by one with wrap-around at both ends |
| Gallery.SteppedInverse | app/page.tsx:618-621 | `go(1)` then `go(-1)`, or the reverse, is the identity |
| Gallery.ArrowLeftFromTwo | app/page.tsx:626-629 | from index 2, ArrowLeft twice gives 0 and once more wraps to the last |
| Gallery.PrevTarget | app/page.tsx:702 | `max(0, page-1)` is never negative and is `page-1` from page 1 on |
| Gallery.NextTarget | app/page.tsx:726 | `min(pageCount-1, page+1)` is at most the last page and is `page+1` before it |
| Gallery.TargetsInRange | app/page.tsx:701-731 | the previous and next buttons pass a page in [0, pageCount) |
| Gallery.Placeholders | app/page.tsx:693 | a short page gets exactly the cells missing to 10, a full page none |
| Gallery.GridFilled | app/page.tsx:693 | a page's images plus its placeholders fill exactly 10 cells |
| Gallery.Label | app/page.tsx:678 | the label number `i + 1 + page·10`; `LabelIsPosition` proves it is the image's position |
| Gallery.LabelIsPosition | app/page.tsx:678 | the label `i + 1 + page·10` is the image's 1-based position in `ordered` |
| Gallery.Indicator | app/page.tsx:773 | the `NN / MM (페이지 P)` text under the enlarged image; `IndicatorPosition` states how its position reads back |
| Gallery.IndicatorPosition | app/page.tsx:773 | the indicator opens with the two-digit 1-based position, which reads back as it |
| Gallery.GalleryView.PageImages | app/page.tsx:600 | `pages[page] ?? []`: the current page, or none out of range; `ShownImage` builds on it; under `Valid` it is `Pages(ordered, PageSize)[page]` for an in-range page, which `GridFilled` covers |
| Gallery.GalleryView.Len | app/page.tsx:619 | the page length, or 1 for an empty page: the modulus `go` wraps by; `Valid` keeps the modal index below it and `Go` steps within it |
| Gallery.GalleryView.ModalShown | app/page.tsx:735 | the modal renders only when open over a non-empty page; under `Valid`, which allows `open` only over a non-empty page, it is exactly `open`; `ShownImage` requires it |
| Gallery.GalleryView.ShownImage | app/page.tsx:735-757 | the enlarged image is an image of the current page |
| Gallery.GalleryView.constructor | app/page.tsx:583-607 | mount sorts a copy, paginates it, shows page 0 with the modal closed |
| Gallery.GalleryView.OpenModal | app/page.tsx:609-613 | opening records the focused element and shows image `i` |
| Gallery.GalleryView.CloseModal | app/page.tsx:614-617 | closing hides the modal and hands back the element recorded at open time |
| Gallery.GalleryView.Go | app/page.tsx:618-621 | `go` steps the index with wrap-around and changes nothing else |
| Gallery.GalleryView.OnModalKey | app/page.tsx:624-630 | while open: Escape closes, the arrows step, any other key changes nothing; while closed nothing happens |
| Gallery.GalleryView.GoPage | app/page.tsx:650-655 | a page change sets the page, closes the modal and resets the index |
| Gallery.GalleryView.PrevPage | app/page.tsx:701-704 | the previous button, enabled only off the first page, goes to `max(0, page-1)` and keeps the page in range |
| Gallery.GalleryView.NextPage | app/page.tsx:725-728 | the next button, enabled only before the last page, goes to `min(pageCount-1, page+1)` and keeps the page in range |
| Gallery.GalleryView.SelectPage | app/page.tsx:710-713 | a numbered button goes to its page, which is in range |
| Packages.Selected | app/page.tsx:877 | selecting a card opens it exactly when it was closed, and leaves no other card open |
| Packages.SelectTwice | app/page.tsx:877 | selecting a closed card twice leaves it closed |
| Packages.OpenCount | app/page.tsx:877 | the number of cards rendered with `open={openedKey === pkg.key}`: at most the number of cards, none when nothing is selected; `AtMostOneOpen` bounds it by 1 |
| Packages.AtMostOneOpen | app/page.tsx:876-878 | with distinct keys at most one card renders open, none when nothing is selected |
| Packages.NotOpenElsewhere | app/page.tsx:876-878 | no card renders open when the selected key is not in the list |
| Packages.Keys | app/page.tsx:110-231 | the card keys of `PACKAGES_2025` and `PACKAGES_2026` in display order; `KeysDistinct` proves them distinct |
| Packages.KeysDistinct | app/page.tsx:110-231 | both years list three distinct card keys |
| Packages.Accordion.constructor | app/page.tsx:847-848 | mount shows 2025 with no card expanded |
| Packages.Accordion.Cards | app/page.tsx:849 | `data`, the card keys of the chosen year; `Select` and `SwitchYear` bound the open cards among them |
| Packages.Accordion.Select | app/page.tsx:877 | a card's button applies the selection and at most one card is open afterwards |
| Packages.Accordion.SwitchYear | app/page.tsx:858-861 | a year button shows that year and collapses every card |

## Left out

- Markup, Tailwind classes, `next/image`, `next/link`, `SectionTitle`, `NavBar` rendering, `NoticeAndInquiry`, `FAQSection` and `Footer`: presentation only (the footer also reads the clock).
- Static data: brand copy, prices, FAQ text and the image lists. They have no behaviour. Only the package card keys and the gallery file-name shape are used.
- `app/layout.tsx`, `app/fonts.ts` and `tailwind.config.js`: metadata, font loading and build configuration.
- The 3500 ms `setInterval`: only whether the interval exists (`AutoplayOn`, `TimerRunning`) and what a tick does are modelled, not time.
- Listener registration and removal (`keydown`, `visibilitychange`, `hashchange`, `focusin`) and effect re-runs: each handler is one atomic method.
- The focus trap and the real `focus()` calls: elements are opaque handles. `CloseModal` returns the handle to refocus. Whether that element still exists is a DOM question.
- `history.replaceState` and `window.location.hash`: the fragment is a field that `OnChange` writes and `OnHashChange` receives.
- The first render with tab `home` before the load effect runs: the constructor goes straight to the fragment's tab.
- React scheduling and batching, including the `setUserPaused` call nested inside the `setPaused` updater: a toggle is one atomic transition.
- `prefers-reduced-motion`: the code re-reads the preference on each render but never subscribes to changes; the model fixes it at construction, so a preference changed while the slideshow is shown is not modelled.
- `Number()` on digit runs beyond 2^53 and the floating-point comparator `parseN(a) - parseN(b)`: keys are unbounded naturals.
- Regular-expression engine semantics in general: only `/g-(\d+)\./` is modelled, as "leftmost `g-`, a maximal run of at least one ASCII digit, then `.`".
- The `MAIN_IMAGES[idx] ?? MAIN_IMAGES[0]` fallback: the index is always in range, so the fallback never applies.
- Slideshow with no images: excluded by the constructor's precondition (the code would compute `% 0`).
- Pagination: proved for any positive page size. The gallery uses 10.
- Tab switches unmount the hidden views (`{tab === ... && <View />}`): re-entering a tab restarts its slideshow (slide 0, playing), gallery (page 0, modal closed) or package list (2025, nothing open). The model's classes are independent objects; nothing ties a fresh constructor call to a tab change, so the reset on re-entry is only the constructors' contracts.
