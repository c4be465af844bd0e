# Portfolio interactive layer — a verified Dafny model

This project models the small amount of sequential logic in the root component
of a single-page portfolio site (`src/App.tsx`):

- **Theme switch** (`theme.dfy`, module `Theme`). A click flips `"dark"` to `"light"`
  and every other value to `"dark"`. The new value goes to the theme state and to the
  root's `data-theme` attribute.
- **Typewriter animator** (`typewriter.dfy`, module `Typewriter`). A four-phase
  machine cycles through three fixed role titles: typing, pause on the full title,
  deleting, pause on the empty text. `Next` is the reference definition of one step.
  `Animator` is a class holding the three closure variables and the element's text.
  Its `Step` follows the code line by line, including JavaScript's clamping
  `substring` and `typeSpeed /= 2`. It is proved to agree with `Next`. Where the code
  calls `setTimeout(typeWriter, typeSpeed)`, `Step` returns the delay instead.
- **Navigation synchroniser** (`navigation.dfy`, module `Navigation`). `NavBar` holds
  the nav items' `data-section` attributes, their `active` class marks (an
  `array<bool>` updated in place) and the active section.
  - A click selects the item's section.
  - An IntersectionObserver batch walks its entries in order. It selects and
    highlights the id of every intersecting entry that has a non-empty id, so the
    last such entry wins.
  - The rendered class names are modelled as a function of the active section.
- `options.dfy` holds the `Option` type used for attributes that may be null.

JavaScript truthiness is modelled explicitly. `if (section)` and `if (id)` reject
both `null` and the empty string (`Navigation.Truthy`).

Two behaviours of the code worth noting:
- The first render already marks the "hero" item active, through its class name
  (`Navigation.InitialRender`, `NavBar.constructor`). So an entry is highlighted
  before any observation fires.
- The flip sends any value other than `"dark"` to `"dark"`. It does not toggle
  between two arbitrary states.

## Model

| member | source | states |
|---|---|---|
| `Theme.Flip` | src/App.tsx:14 | the new theme is always "dark" or "light" and always differs from the old one |
| `Theme.Toggle` | src/App.tsx:13-17 | the attribute written equals the new theme state, which is a theme value different from the old; "light" goes to "dark" |
| `Theme.FlipInvolutive` | src/App.tsx:14 | flipping twice returns "dark" and "light" to themselves |
| `Theme.FlipNonDark` | src/App.tsx:14 | any value other than "dark" becomes "dark", and then "light" |
| `Theme.FlipTimesParity` | src/App.tsx:13-17 | after n clicks the theme is the start value iff n is even, and it is always one of the two values |
| `Theme.FromInitial` | src/App.tsx:5-17 | from the initial "dark", n clicks show "dark" for even n and "light" for odd n |
| `Theme.ClickStacked` | src/App.tsx:13-17 | one click with listeners that were never detached (cleanup at line 101, re-run at line 108), oldest first: whenever a listener fired, the state ends as a theme value and the attribute equals it |
| `Theme.ClickStackedNewestWins` | src/App.tsx:13-17 | with several listeners stacked by the effect's re-runs, a click's outcome is the newest listener's toggle of its captured theme, and attribute and state agree |
| `Typewriter.TitleLengths` | src/App.tsx:39 | there are three titles, of lengths 20, 16 and 17 |
| `Typewriter.JsSubstring` | src/App.tsx:48-51 | JavaScript substring: within bounds it is the slice; with both bounds at or below 0 it is empty; never longer than the string |
| `Typewriter.Shown` | src/App.tsx:47-53 | the text a state stands for is a prefix of its title of length charIndex |
| `Typewriter.Next` | src/App.tsx:44-65 | a step keeps the invariant (title index in range, 0 <= charIndex <= length, below the length while typing, at least 1 while deleting), moves charIndex by exactly one up when typing and down when deleting, and shows a prefix of the title that was current, of the new length |
| `Typewriter.StepDelay` | src/App.tsx:55-65 | delay 2000 exactly on the step that completes the title and switches to deleting; 500 exactly on the step that empties the text and switches to typing; 100 otherwise while typing and 50 otherwise while deleting; the title index changes only on the emptying step, to the next one modulo 3 |
| `Typewriter.CycleShape` | src/App.tsx:44-65 | within the cycle of title i of length L, step n <= L shows n characters, step L <= n < 2L shows 2L - n while deleting, and step 2L is the start of title i+1 mod 3 |
| `Typewriter.Cycle` | src/App.tsx:58-65 | exactly 2L steps take the start of title i to the start of the next title, no earlier step empties the text, and step L shows the full title |
| `Typewriter.TypingDelays` | src/App.tsx:55-60 | typing a title from k characters takes L-k steps whose delays sum to 100(L-k-1) + 2000 |
| `Typewriter.DeletingDelays` | src/App.tsx:55-64 | deleting from k characters takes k steps whose delays sum to 50(k-1) + 500 |
| `Typewriter.CycleDuration` | src/App.tsx:55-65 | one full cycle of a title of length L lasts 100(L-1) + 2000 + 50(L-1) + 500 |
| `Typewriter.RunDelayAdd` | src/App.tsx:67 | steps chained by the timer compose: states and delay totals add up over consecutive runs |
| `Typewriter.CycleThen` | src/App.tsx:58-65 | a full cycle of title i followed by n steps is the same as n steps from the start of the next title |
| `Typewriter.TitleOrder` | src/App.tsx:61-63 | after k full cycles from title i the animator starts title (i + k) mod 3, so titles are visited 0, 1, 2, 0, ... |
| `Typewriter.Animator.constructor` | src/App.tsx:37-42 | the animator starts at title 0, no characters, typing, with the element's initial empty text, and the invariant holds |
| `Typewriter.Animator.Step` | src/App.tsx:44-68 | one call of typeWriter keeps the invariant, and its new state, written text and returned delay are exactly those of Next on the old state; the text is a prefix of the title current before the step |
| `Typewriter.Animator.Drive` | src/App.tsx:67-70 | driving the timer chain n steps reaches the state Run gives after n steps; the k-th returned delay is the one Next picks at step k, and the delays total RunDelay over n steps |
| `Navigation.LastQualifying` | src/App.tsx:81-94 | a selected id is never empty |
| `Navigation.LastQualifyingSome` | src/App.tsx:81-94 | a batch selects id iff some intersecting entry with id has no intersecting entry with a non-empty id after it |
| `Navigation.LastQualifyingNone` | src/App.tsx:81-94 | a batch selects nothing iff no entry is intersecting with a non-empty id |
| `Navigation.LastQualifyingConcat` | src/App.tsx:80-95 | two batches in a row select what their concatenation selects: the later batch wins when it selects anything |
| `Navigation.MarkedCount` | src/App.tsx:86-91 | the number of items marked for id is the number of items whose data-section is id |
| `Navigation.ExactlyOneMarked` | src/App.tsx:86-91 | with distinct data-sections, exactly one item is marked if id is among them, none otherwise |
| `Navigation.ClassName` | src/App.tsx:169 | the class-name template yields "nav-item active" iff the active section equals the item's key, and "nav-item " otherwise |
| `Navigation.NavAttributes` | src/App.tsx:169-195 | the rendered nav items carry seven data-section values, none missing or empty and no two alike |
| `Navigation.RenderedMatchesHighlight` | src/App.tsx:169-195 | the rendered marks equal the marks the scroll-spy writes for the same section; exactly one item is marked when the section is one of the seven keys, none otherwise |
| `Navigation.InitialRender` | src/App.tsx:169-171 | the first render marks exactly one item, the "hero" item |
| `Navigation.NavBar.constructor` | src/App.tsx:6 | the active section starts as "hero", with the marks of the initial render, so exactly the items whose data-section is the active section are marked |
| `Navigation.NavBar.Click` | src/App.tsx:23-33 | a click on an item with a non-empty data-section makes it the active section and the marks follow it, as the re-render of the class names does; a missing or empty one changes nothing; the marks keep matching the active section |
| `Navigation.NavBar.Highlight` | src/App.tsx:86-91 | after the pass, exactly the items whose data-section equals id are marked |
| `Navigation.NavBar.Observe` | src/App.tsx:80-95 | after a batch, the active section is the id of the last intersecting entry with a non-empty id, and exactly the items with that data-section are marked; a batch with no such entry changes neither the section nor any mark; the marks keep matching the active section |

## Left out

- DOM lookup and wiring are browser I/O: `getElementById`, `querySelector(All)`, `addEventListener`, `preventDefault` and `scrollIntoView` (src/App.tsx:11-12, 21-34, 37-38, 74, 97). Their results are inputs instead: the nav items' `data-section` values and the observer's entries. A missing element is not modelled.
- `setTimeout` scheduling is replaced by the delay that `Step` returns. The React effect lifecycle is not modelled (src/App.tsx:99-108).
  - The cleanup passes fresh lambdas to `removeEventListener`, so click listeners are never detached.
  - The effect re-runs on every theme change. Listeners stack up, and each re-run starts another typewriter loop on the same element, so loops interleave their writes. That interleaving is concurrency outside this sequential model.
  - Only the stacked theme listeners' effect on one click is modelled (`Theme.ClickStacked`).
- The IntersectionObserver geometry (threshold 0.3, root margin) is browser layout (src/App.tsx:75-78). Each entry's `isIntersecting` is an input.
- React state batching is taken as "the last `setActiveSection`/`setTheme` of an event wins". The re-render that follows a click is modelled by rewriting the marks for the new section; `Navigation.RenderedMatchesHighlight` shows that the rendered class names mark the same items. The order in which React and the observer write the same class list within one frame is not modelled.
- The notification toast and the resume button (src/App.tsx:110-125) are not modelled. They consist only of React state and timer semantics.
- All JSX markup, copy, styling and asset links are not modelled, apart from the nav items' class names and keys.
