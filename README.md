# Portfolio typewriter and navigation highlight, modelled in Dafny

The portfolio is a single-page React site. Nearly all of `App` is markup and
animation. Two pieces of it hold logic, and this project models both.

- **The typewriter effect** (`typewriter.dfy`, module `Typewriter`). Four
  fixed phrases are shown one character at a time. Each phrase is typed out,
  held for 2000 ms, deleted at 100 ms per character, and then the next phrase
  (wrapping round to the first) is typed at 150 ms per character. The closure
  state (`currentIndex`, `currentChar`, `isDeleting`) is the datatype `Cycle`.
  One call of `typeText` is the function `StepOf`. It returns the new state,
  the text passed to `setCursorText` and the delay handed to `setTimeout`.
  The class `Cycler` holds the same state in mutable fields together with the
  rendered text. Its `Step` method is the imperative form of `typeText` and is
  proved to agree with `StepOf`. `Substring` models JavaScript's
  `String.prototype.substring`, which clamps its indices. `Run` iterates the
  step. The lemmas prove the invariants, the single-step properties and the
  `2k`-step cycle per phrase.
- **The active navigation section** (`active_section.dfy`, module
  `ActiveSection`). When the four "in view" flags change, the effect applies
  four conditional updates in page order. `Select` models those updates. The
  lemmas show that the result equals a general left-to-right sequence of
  updates (`ApplyUpdates`), and that such a sequence picks the last section
  in view, or keeps the previous value when no section is in view.

Every phrase must be non-empty, and so must the list. This is a `requires`
on the `Cycler` constructor; the site's own phrase list meets it
(`PhrasesWellFormed`). `EmptyPhraseNeverDeletes` shows why the requirement
exists. On an empty phrase the test `currentChar === currentText.length`
never succeeds, so the effect types that phrase forever.

The effect returns no cleanup function, so there is no stop or cancel
operation. The phrase list is a constant (`App.tsx` lines 33-38), so there is
no error path for an empty list. After the step that deletes a phrase's last
character, the delay is 150 and not 100, because `isDeleting` has already
been cleared when the delay is chosen.

## Model

| member | source | states |
|---|---|---|
| `Typewriter.Substring` | Portfolio/src/App.tsx:47 | JavaScript `substring` on strings without surrogate pairs: an in-range call is the slice `s[start..end]`; a call from 0 is the prefix whose length is `end` clamped to the string; the result is never longer than `s` |
| `Typewriter.StepOf` | Portfolio/src/App.tsx:43-67 | one call of `typeText`; the next phrase index is always within the list (it wraps modulo the list length) |
| `Typewriter.Shown` | Portfolio/src/App.tsx:47-57 | the displayed text of a valid state is a prefix of the current phrase of length `charPos` |
| `Typewriter.PhrasesWellFormed` | Portfolio/src/App.tsx:33-38 | the site's four phrases form a non-empty list of non-empty phrases |
| `Typewriter.StartValid` | Portfolio/src/App.tsx:39-41 | the start state (index 0, position 0, typing) satisfies the invariant and shows the empty string |
| `Typewriter.FirstStep` | Portfolio/src/App.tsx:39-53 | the first call shows the first character of the first phrase, moves to position 1, and pauses 2000 only when that phrase has one character (else 150) |
| `Typewriter.StepKeepsInv` | Portfolio/src/App.tsx:43-67 | every step keeps index within the list, `0 <= charPos <= len`, `charPos < len` while typing, `charPos > 0` while deleting; the text shown is the prefix of the new state |
| `Typewriter.TypingStep` | Portfolio/src/App.tsx:46-48 | a typing step increases the position by exactly 1 and shows that many leading characters of the phrase |
| `Typewriter.DeletingStep` | Portfolio/src/App.tsx:55-57 | a deleting step decreases the position by exactly 1 and shows that many leading characters of the phrase |
| `Typewriter.FullPhraseStartsDeleting` | Portfolio/src/App.tsx:50-53 | a typing step switches to deleting if and only if it reaches the full phrase length, and then the delay is 2000 |
| `Typewriter.EmptiedAdvances` | Portfolio/src/App.tsx:59-62 | a deleting step switches to typing if and only if it reaches position 0; that step moves to index `(i + 1) % n` (0 after the last phrase), position 0, with delay 150 |
| `Typewriter.IndexChangesOnlyOnWrap` | Portfolio/src/App.tsx:44-63 | the phrase index after a step is `(i + 1) % n` on the delete-to-zero step and unchanged on every other step |
| `Typewriter.StepDelay` | Portfolio/src/App.tsx:50-66 | for every state the delay is 2000 exactly when typing reaches the full phrase, 100 exactly when a deleting step leaves the machine deleting, and 150 exactly when the step leaves it typing |
| `Typewriter.Run` | Portfolio/src/App.tsx:43-67 | `m` rescheduled calls yield `m` shown texts and `m` delays, and the index stays within the list |
| `Typewriter.RunAppend` | Portfolio/src/App.tsx:43-67 | running `a + b` steps is running `a` steps and then `b` steps from where they ended |
| `Typewriter.RunKeepsInv` | Portfolio/src/App.tsx:43-67 | after any number of steps from a valid state the invariant holds and the last text shown is a prefix of the current phrase of length `charPos` |
| `Typewriter.TypingPhase` | Portfolio/src/App.tsx:46-53 | typing a phrase from position `j` takes `len - j` steps, shows `p[..j+1]` up to `p`, with delays 150 then 2000, and ends deleting at full length |
| `Typewriter.DeletingPhase` | Portfolio/src/App.tsx:55-66 | deleting from position `j` takes `j` steps, shows `p[..j-1]` down to `""`, with delays 100 then 150, and ends typing at position 0 of the next phrase |
| `Typewriter.PhraseCycle` | Portfolio/src/App.tsx:43-67 | from position 0 typing on a phrase of length `k`, exactly `2k` steps show its first 1..k and then k-1..0 characters and end at position 0, typing, on index `(i + 1) % n`; the delays are `k-1` times 150, 2000, `k-1` times 100, 150 |
| `Typewriter.EmptyPhraseNeverDeletes` | Portfolio/src/App.tsx:46-54 | on an empty phrase the machine stays typing on that phrase forever, its position growing by one per step and showing `""` |
| `Typewriter.TwoLetterCycle` | Portfolio/src/App.tsx:43-67 | the four steps of a two-letter phrase show its first letter, the phrase, its first letter, `""`, with delays 150, 2000, 100, 150 |
| `Typewriter.TwoPhraseRun` | Portfolio/src/App.tsx:43-67 | with phrases "Hi" and "Yo", nine steps show H, Hi, H, "", Y, Yo, Y, "", H and end at position 1 of the first phrase |
| `Typewriter.Cycler.constructor` | Portfolio/src/App.tsx:33-41 | mounting starts at index 0, position 0, typing, with nothing displayed, and establishes the object invariant; the immediate first call of `typeText` at mount (line 69) is the client's first `Step` |
| `Typewriter.Cycler.Step` | Portfolio/src/App.tsx:43-67 | the in-place step keeps the object invariant; its new fields, the displayed text and the returned delay are those of `StepOf` on the old state |
| `Typewriter.TwoPhraseScenario` | Portfolio/src/App.tsx:43-69 | a client that mounts a `Cycler` on "Hi" and "Yo" and calls `Step` nine times observes exactly H, Hi, H, "", Y, Yo, Y, "", H and delays 150, 2000, 100, 150, 150, 2000, 100, 150, 150 |
| `ActiveSection.Select` | Portfolio/src/App.tsx:77-82 | projects in view gives `projects`; otherwise the last flag set in the order home, about, skills wins; with no flag set the previous value is kept; the result is a navigation id or the previous value |
| `ActiveSection.LastSetFlagWins` | Portfolio/src/App.tsx:77-82 | a sequence of conditional updates picks the id of the last set flag, and keeps the current value when no flag is set |
| `ActiveSection.UpdatesStayInIds` | Portfolio/src/App.tsx:77-82 | a sequence of conditional updates yields one of its ids or the current value |
| `ActiveSection.SelectIsLastInView` | Portfolio/src/App.tsx:77-89 | the four updates are the general update sequence over the navigation order home, about, skills, projects |
| `ActiveSection.ActiveStaysInNav` | Portfolio/src/App.tsx:77-82 | starting from a navigation id (initially `home`), the active section is always a navigation id |

## Left out

- Typewriter.Substring: a Dafny `string` is a sequence of characters, while JavaScript's `length` and `substring` count UTF-16 code units. For a phrase with a character outside the Basic Multilingual Plane, the page takes one step per code unit and briefly shows a lone surrogate half; the model takes one step per character. The site's own four phrases are ASCII, where the two agree.
- Timers: `setTimeout` is not modelled. Each step returns its delay, and `Run` stands for the chain of rescheduled calls. Delays are numbers with no clock behind them.
- React state: `useState`, `useEffect` and re-rendering are not modelled. `setCursorText` becomes an update of the `displayed` field, and `setActiveSection` calls become the result of `Select`.
- Unmounting: there is no `stop` operation. The effect returns no cleanup, so its timer chain is never cancelled, and the model adds none.
- `isTyping` (App.tsx line 14): the state is declared but never updated by any logic.
- Intersection observers (`useInView`): they are browser I/O. Their four boolean outputs are the inputs of `Select`.
- Mouse tracking and the radial gradient: DOM event input, used only for cosmetics.
- Scroll-progress mapping (`useTransform`): a floating-point interpolation inside an animation library.
- The particle background (`loadSlim`, `particlesOptions`): a call into an external library with static configuration.
- JSX, styling and animation settings, skill and project data, and images: presentation only, with no logic.
