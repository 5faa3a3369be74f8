# Portfolio site: technology filter, slide carousel, typing hero and timeline reveals

This project models the few pieces of real logic in a personal portfolio site
written with React. Each piece becomes an immutable state record with pure
transition functions. Timers and the browser's intersection observer become
abstract events.

- **Technology filter** (`Projects` page), in module `Projects`. It covers the
  sorted list of distinct technology tags and the per-tag counts shown on the
  filter buttons. It also covers the project filter, where an empty selection
  means "show everything" and a non-empty one keeps projects sharing at least
  one tag. Last, it covers the add/remove toggle on the selected tags. Helper
  modules: `TagOrder` (the order `Array.prototype.sort()` uses, and insertion
  sort) and `Seqs` (`[...new Set(xs)]`, `filter(x => x !== y)`, subsequences).
- **Slide carousel** of the project modal, in module `Carousel`. The state is
  `{currentSlide, direction, isAnimating, key}` over `n` slides. The events are
  the next/prev buttons, the animation-lock timeout, the indicator jump and the
  key handler. Module `ShatterGrid` holds the 4×4 tile geometry of the
  "shattered" slide.
- **Typing hero** of the About page, in module `Hero`. It has typing ticks, the
  pause-then-advance timeout and the cursor blink.
- **Visibility tracker** of the About page, in module `Visibility`. It holds
  three duplicate-free, growing index lists, one per timeline section.
- **Timeline section**, in module `Timeline`. It covers the `data-index` and
  `data-section` tags, the reveal predicate, and the `||` fallback chains for
  heading and subtitle. Lemma `RevealOnIntersect` ties the render to the
  tracker.

Module `Js` holds the JavaScript value semantics these components depend on:
- numbers that may become NaN;
- the remainder `%`, which truncates and gives NaN for `% 0`;
- `parseInt` and `String(n)`;
- the truthiness of an optional string.

Because slide and phrase indices are `Number`, a carousel with no slides and an
empty phrase list are modelled rather than ruled out: the index becomes NaN, or
the typing tick throws.

Behaviour that follows the code where one might assume otherwise:
- **Keyboard ignores the lock.** The key listener is registered once at mount.
  Its handlers test the lock value captured then, which is always `false`. So
  the arrow keys move the carousel even while a transition runs
  (`Carousel.KeyDown`, `Carousel.KeyboardBypassesLock`).
- **Jump does not lock.** The indicator jump never sets `isAnimating`.
- **Full text after `|phrase| + 1` ticks.** The first tick shows the empty
  prefix, so the whole phrase is shown after `|phrase| + 1` ticks, not after
  `|phrase|`.
- **Stale text after an advance.** `typedText` is not cleared when the phrase
  changes. Until the next tick it still shows the previous phrase
  (`Hero.AdvanceKeepsPreviousText`, `Hero.StaleTextAfterAdvance`). So the prefix property only holds once the
  counter has moved.
- **One phrase never restarts.** With a single phrase the advance stores the
  index it already holds. React then does not re-run the typing effect, so
  typing never restarts (`Hero.AdvanceRestarts`).
- **Lists, not sets.** The visibility "sets" are arrays kept duplicate-free by
  `[...new Set([...prev, index])]`. New indices go at the end.

## Model

| member | source | states |
|---|---|---|
| Projects.AllTags | src/pages/Projects.tsx:50-51 | the flattened tag list contains a tag exactly when some project lists it |
| Projects.AllTechnologies | src/pages/Projects.tsx:50-52 | the tag list is strictly ascending (hence duplicate-free) and contains a tag exactly when some project lists it |
| TagOrder.Sort | src/pages/Projects.tsx:52 | sorting a duplicate-free list yields a strictly ascending list with the same elements and length |
| TagOrder.SortedUnique | src/pages/Projects.tsx:52 | two strictly ascending lists with the same elements are equal, so the filter's tag list is the one sorted arrangement of the tag set |
| TagOrder.LessTransitive | src/pages/Projects.tsx:52 | the string order used by the default sort is transitive |
| TagOrder.LessTotal | src/pages/Projects.tsx:52 | any two different strings are ordered one way or the other |
| Seqs.Dedup | src/pages/Projects.tsx:51 | `[...new Set(xs)]` is duplicate-free, has exactly the elements of `xs`, and is an order-preserving subsequence of `xs` |
| Seqs.DedupFirstOccurrence | src/pages/Projects.tsx:51 | the de-duplicated list keeps the order of first occurrences: of any two of its elements, the earlier one occurs in `xs` before every occurrence of the later one, as a `Set` iterates in insertion order |
| Seqs.DedupDistinct | src/pages/About.tsx:52 | de-duplicating a list that has no duplicates returns it unchanged |
| Projects.OccurrencesPositive | src/pages/Projects.tsx:63-71 | a tag's total number of occurrences is positive exactly when some project lists it |
| Projects.TechCounts | src/pages/Projects.tsx:63-71 | the counts map has a key exactly for each listed tag, and its value is the total number of occurrences across all projects' lists |
| Projects.OfferedTagsCounted | src/pages/Projects.tsx:63-71 | every tag offered as a filter button has a count of at least one |
| Projects.Keep | src/pages/Projects.tsx:74-76 | the filter result is an order-preserving subsequence in which each project occurs as often as in the input if it matches the selection, and never otherwise |
| Projects.FilteredProjects | src/pages/Projects.tsx:73-77 | an empty selection returns the project list unchanged; a non-empty one returns the order-preserving subsequence of matching projects, with their multiplicities |
| Projects.FilterSingleTag | src/pages/Projects.tsx:74-76 | selecting one tag keeps exactly the projects whose technology list contains it |
| Projects.FilterExample | src/pages/Projects.tsx:74-76 | projects tagged React and Go, filtered by React, leave only the first |
| Projects.FilterGrowsWithSelection | src/pages/Projects.tsx:74-76 | with a non-empty selection, adding a tag keeps every previously shown project, and the old result is a subsequence of the new one |
| Seqs.Without | src/pages/Projects.tsx:82 | `filter(t => t !== tech)` removes every occurrence of `tech`, keeps every other element with its multiplicity, and preserves order |
| Projects.ToggleTech | src/pages/Projects.tsx:79-85 | a present tag is removed everywhere and the rest kept in order; an absent tag is appended at the end; the tag is selected afterwards exactly when it was not before |
| Projects.ToggleKeepsDistinct | src/pages/Projects.tsx:79-85 | toggling keeps a duplicate-free selection duplicate-free |
| Projects.ToggleTwice | src/pages/Projects.tsx:79-85 | toggling an unselected tag twice restores the original selection |
| Seqs.SubseqDistinct | src/pages/Projects.tsx:82 | deleting elements from a duplicate-free list leaves it duplicate-free |
| Js.Rem | src/components/ProjectModal.tsx:85 | JavaScript `%` is NaN for a zero divisor, agrees with the mathematical remainder for a non-negative dividend, is smaller than the divisor in magnitude with the dividend's sign, and differs from the dividend by a multiple of the divisor (so it is the truncating remainder) |
| Carousel.Initial | src/components/ProjectModal.tsx:15-18 | the modal opens on slide 0, direction right, unlocked, with `key` 0 |
| Carousel.LockSeenByKeyboard | src/components/ProjectModal.tsx:17 | the lock value the key listener registered at mount (lines 34-37) keeps seeing: the initial `false` |
| Carousel.InitialOnSlide | src/components/ProjectModal.tsx:15-18 | with at least one slide the modal opens on a valid slide, unlocked, and the keyboard sees the lock as clear |
| Carousel.HandleNext | src/components/ProjectModal.tsx:71-78 | when the lock it sees is set nothing changes; otherwise it takes the lock, increments `key` by one, sets direction right, and moves to `(i + 1) mod n`, which stays in `[0, n)`; with no slides the index becomes NaN |
| Carousel.HandlePrev | src/components/ProjectModal.tsx:80-87 | as next, with direction left and index `(i - 1 + n) mod n` |
| Carousel.NextButton | src/components/ProjectModal.tsx:71-76 | the next button is rejected while animating; otherwise it locks, bumps `key` and wraps forward within `[0, n)` |
| Carousel.PrevButton | src/components/ProjectModal.tsx:80-85 | the prev button is rejected while animating; otherwise it locks, bumps `key` and wraps backward within `[0, n)` |
| Carousel.AnimationEnd | src/components/ProjectModal.tsx:77 | the timeout clears the lock and changes nothing else |
| Carousel.NextThenPrev | src/components/ProjectModal.tsx:71-87 | next, the timeout, then prev returns to the starting slide with `key` advanced by two |
| Carousel.PrevThenNext | src/components/ProjectModal.tsx:71-87 | prev, the timeout, then next returns to the starting slide |
| Carousel.NextPressesAdvance | src/components/ProjectModal.tsx:71-77 | after `k` accepted next presses the slide is `(i + k) mod n`, `key` has grown by `k`, and the lock is clear |
| Carousel.FullCycle | src/components/ProjectModal.tsx:76 | `n` next presses bring the carousel back to its starting slide |
| Carousel.Jump | src/components/ProjectModal.tsx:136-141 | the jump is a no-op while animating or onto the current slide; otherwise it moves to the target and bumps `key`; direction is right exactly when the target is after the current slide; the lock is never touched |
| Carousel.KeyDown | src/components/ProjectModal.tsx:28-37 | Escape asks to close, ArrowLeft and ArrowRight run prev and next with the lock seen as false, and any other key changes nothing |
| Carousel.KeyboardBypassesLock | src/components/ProjectModal.tsx:34-37 | while animating the next button is rejected but the right-arrow key still moves the slide |
| Carousel.EventsKeepSlideInRange | src/components/ProjectModal.tsx:71-87 | from a slide in `[0, n)`, the buttons, the jump, the timeout and every key leave the slide in `[0, n)` |
| Carousel.KeyDownLocked | src/components/ProjectModal.tsx:28-32 | a key handler that sees the current lock: it is a no-op while animating and agrees with the buttons otherwise |
| ShatterGrid.CellBijection | src/components/ProjectModal.tsx:44-46 | `i ↦ (i div 4, i mod 4)` maps `[0,16)` into the 4×4 cells, and `(row, col) ↦ 4·row + col` is its inverse both ways |
| ShatterGrid.ShatteredPieces | src/components/ProjectModal.tsx:39-69 | exactly 16 tiles, indexed in order, on pairwise different cells that cover the grid; each tile is 25 % square at `col·25 %`, `row·25 %` inside the container, and shows the image offset `-col·100 %`, `-row·100 %` of an image scaled to `400 %` by `400 %` |
| Hero.Initial | src/pages/About.tsx:9-18 | the hero starts with empty text, phrase 0, the cursor shown, and the typing effect just started with its counter at 0 |
| Hero.InitialInv | src/pages/About.tsx:9-18 | for a non-empty phrase list the starting state satisfies the typing invariant that every event keeps |
| Hero.PhraseAt | src/pages/About.tsx:18 | a phrase is found exactly for an integer index inside the list |
| Hero.Tick | src/pages/About.tsx:20-30 | a tick with `k ≤ |phrase|` shows a `k`-character prefix of the phrase and increments `k`, without scheduling the advance; with `k > |phrase|` it stops typing and schedules the advance, keeping the text and the counter; an undefined phrase throws |
| Hero.PauseElapsed | src/pages/About.tsx:26-28 | the advance moves to `(p + 1) mod |phrases|`, which stays in range, and restarts typing from zero exactly when the index changed; the text is kept |
| Hero.CursorTick | src/pages/About.tsx:32-34 | a cursor tick negates `showCursor` and changes nothing else |
| Hero.CursorTwice | src/pages/About.tsx:32-34 | two cursor ticks restore the state |
| Hero.EventsKeepInv | src/pages/About.tsx:16-40 | every event keeps the typing invariant, and a tick never throws while it holds |
| Hero.TicksReveal | src/pages/About.tsx:20-23 | from the start of a phrase, `k ≤ |phrase| + 1` ticks leave the counter at `k` and show the first `k - 1` characters |
| Hero.TypesWholePhrase | src/pages/About.tsx:20-29 | after `|phrase| + 1` ticks the whole phrase is shown, and one more tick stops typing with the advance pending |
| Hero.AdvanceRestarts | src/pages/About.tsx:26-40 | with several phrases the advance restarts typing; with one it leaves typing stopped for good |
| Hero.AdvanceKeepsPreviousText | src/pages/About.tsx:16-28 | with several phrases, right after the advance the index has changed while the text is still the whole previous phrase |
| Hero.StaleTextAfterAdvance | src/pages/About.tsx:16-23 | the stale text need not be a prefix of the new current phrase: for phrases "ab" and "cd" the text is "ab" while the current phrase is "cd" |
| Hero.TypedTextIsPrefix | src/pages/About.tsx:20-23 | under the typing invariant, once the counter has moved the text shown is a prefix of the current phrase |
| Js.Decimal | src/components/TimelineSection.tsx:50 | `String(index)` for `data-index` is a non-empty run of decimal digits with no leading zero |
| Js.ParseInt | src/pages/About.tsx:47 | `parseInt` is NaN exactly when no digit follows the optional sign; a negative result needs a leading `-`; an all-digit string reads as its decimal value |
| Js.ParseDecimal | src/pages/About.tsx:47 | `parseInt(String(n)) == n` for every non-negative integer, so the `data-index` written is the index read back |
| Visibility.Initial | src/pages/About.tsx:12-14 | the three visibility lists start empty |
| Visibility.InitialWellFormed | src/pages/About.tsx:12-14 | the starting lists are empty and duplicate-free, so the growth lemmas apply from the first callback |
| Visibility.EntryIndex | src/pages/About.tsx:47 | a missing or empty `data-index` reads as index 0; any other value is parsed |
| Visibility.Record | src/pages/About.tsx:52 | the updated list is duplicate-free and holds exactly the old entries and the new index; from a duplicate-free list it keeps the old list as a prefix, is unchanged when the index is present and gains it at the end otherwise |
| Visibility.RecordIdempotent | src/pages/About.tsx:52 | recording the same index twice equals recording it once |
| Visibility.Observe | src/pages/About.tsx:45-61 | a non-intersecting entry or an unrecognised or missing section changes nothing; otherwise only the named section's list changes, by recording the entry's index |
| Visibility.ObserveAll | src/pages/About.tsx:44-62 | after a batch of entries a section's list holds exactly its old indices and those some intersecting entry reported for it |
| Visibility.ObserveGrows | src/pages/About.tsx:50-60 | one entry keeps every list duplicate-free and each old list a prefix of the new one |
| Visibility.ObserveAllGrows | src/pages/About.tsx:44-62 | a whole batch of entries keeps every list duplicate-free and each old list a prefix of the new one |
| Visibility.SeenStaysSeen | src/pages/About.tsx:44-62 | an index recorded for a section stays recorded whatever is observed later |
| Timeline.FirstTruthy | src/components/TimelineSection.tsx:67 | an `a || b || c` chain yields the first truthy operand, or the last operand when none is truthy |
| Timeline.Heading | src/components/TimelineSection.tsx:67 | the heading is the first truthy of role, degree and title |
| Timeline.Subtitle | src/components/TimelineSection.tsx:70 | the subtitle is the first truthy of company, institution and organization |
| Timeline.Render | src/components/TimelineSection.tsx:47-56 | one entry per item; entry `i` is revealed exactly when `i` is in the visible list, carries the section name, and has a non-empty `data-index` that parses back to `i` |
| Timeline.RevealOnIntersect | src/components/TimelineSection.tsx:47-56 | when the element rendered for entry `i` intersects, the next render shows it revealed and the other sections' lists are unchanged |
| Timeline.RevealedStays | src/components/TimelineSection.tsx:52-56 | a revealed entry stays revealed after any later observer entries |

## Findings

| source | as written | input that shows it | evidently intended | confidence | as-written member | corrected member |
|---|---|---|---|---|---|---|
| src/components/ProjectModal.tsx:28-37 | the key listener is registered once with the first render's handlers, so `if (isAnimating) return` always sees `false` | a carousel of 2 or more slides while a transition runs, then ArrowRight: the slide changes although the buttons are disabled | the arrow keys obey the same animation lock as the buttons | medium, not executed | Carousel.KeyboardBypassesLock | Carousel.KeyDownLocked |

## Left out

- **Presentation.** JSX markup, class strings, inline styles, CSS animations and
  the `assemble-left`/`assemble-right` class choice are presentation only.
- **Randomness.** The random tile delays and rotations, and the random tag hues,
  are random, floating-point and cosmetic.
- **Timer durations.** The 100 ms, 500 ms, 2000 ms and 1100 ms durations are
  abstract events (`Tick`, `CursorTick`, `PauseElapsed`, `AnimationEnd`). The
  model does not count pending lock timeouts. The keyboard can start
  overlapping transitions, and then the earliest timeout clears the lock; the
  model lets `AnimationEnd` fire at any time.
- **Viewport geometry.** The intersection observer's threshold and root margin
  are abstract: an entry arrives already marked as intersecting.
- **Icons.** The dynamic icon lookup by name is a foreign library call.
- **DOM side effects.** Body overflow locking, listener registration and
  removal, and effect cleanup on unmount are not modelled.
- **Other files.** The contact form, navbar, routing, scroll indicator, project
  card and skill card are static markup or glue.
- **Double precision.** JavaScript numbers are doubles. The model uses unbounded
  integers, so nothing beyond 2^53 is represented.
- Js.ParseInt: models an optional sign followed by leading decimal digits. It
  does not model leading whitespace or the `0x` hexadecimal prefix. The
  attributes the page writes never contain these.
- Projects.TechCounts: does not model keys that name `Object.prototype` members
  (such as `constructor`), whose `counts[tech] || 0` reads an inherited value.
- Hero.Tick: counts and cuts a phrase by Unicode scalar values, while `.length`
  and `.slice` use UTF-16 code units. For a phrase with characters above U+FFFF
  the source takes more ticks and can show half of a surrogate pair.
- Hero.TicksReveal: the same code-unit difference as `Hero.Tick`, in `|phrase|`
  and the revealed prefix.
- Hero.TypesWholePhrase: the same code-unit difference as `Hero.Tick`, in the
  `|phrase| + 1` tick count.
- Seqs.Dedup: the first-occurrence order of `new Set` is stated separately, in
  `Seqs.DedupFirstOccurrence`.
- TagOrder.Less: compares characters as Unicode scalar values. The default sort
  compares UTF-16 code units, and the two orders differ only for characters
  above U+FFFF.
- **Modal lifetime.** The modal's state is modelled for one project, from its
  opening. The Escape key's `onClose` is the `close` flag of the key outcome.
