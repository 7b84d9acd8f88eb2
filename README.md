# typeReader typing session, modelled in Dafny

typeReader is a single-page typing-practice tool. The reader pastes a text
into a form, sets four options and presses "Start reading"; the page then
mounts the typing component over that text. Every change of a hidden input
is one keystroke: the component compares its last character with the
character under the cursor, moves the cursor, counts mistakes, repaints the
character spans and, on the last character, marks the session done.

The model has five modules:

- `Glyphs` (`glyphs.dfy`): how a source character is displayed (a space
  becomes a non-breaking space, four typographic quotes and accents become
  the plain characters a keyboard has), the punctuation list, ASCII
  lower-casing and the match test between a typed and a displayed character.
- `Keystroke` (`keystroke.dfy`): the component's state as a value (`State`:
  cursor `charIndex`, `mistakes`, `isTyping`, `done`, `startTime` and the
  class list of every span), the transition of one change event (`Step`)
  and of a sequence of them (`Run`), the session invariant (`Inv`) and the
  lemmas about whole typing runs.
- `TypeTest` (`type_test.dfy`): the component as a class whose change
  handler updates its fields and repaints an array of span class lists in
  place, proved against `Step`; and the accuracy figure.
- `Page` (`page.dfy`): the line-break stripping applied to the committed
  text, what the page shows, and the page's state as a class whose handlers
  overwrite its fields.
- `Scenarios` (`scenarios.dfy`): small worked keystroke sequences.

Behaviour modelled as the code has it:

- Two option flags mean the opposite of what their labels suggest. `capsMode`
  ("Case sensitive") on makes matching case-insensitive; `punctuationMode`
  ("Punctuation") on lets an accepted keystroke skip one following
  punctuation character. `mistakesMode` ("Mistakes OK") on moves the cursor
  on after a rejected keystroke, as its label says.
- All reads in the handler see the values from before the event. When
  several cursor updates happen in one event, the last one wins, so a skip
  advances by exactly two.
- The session finishes when the cursor before the event is on the last
  character, so a rejected keystroke there sets `done` too. Outside mistakes
  mode the cursor then stays on that character, still inside the text, so
  later keystrokes are processed again: each one takes a new start time,
  and each rejected one counts another mistake.
- An empty text never completes: no keystroke is processed at all. The page
  strips line breaks only after deciding to show the typing component, so a
  committed text made only of line breaks starts such a session.
- The per-character status is the set of three CSS classes the handler
  toggles: cyan background (cursor), green text (correct) and red background
  (incorrect). After a punctuation skip that finishes the text, the last
  span keeps its cyan class next to the green one.

## Model

| member | source | states |
|---|---|---|
| `Glyphs.Display` | app/components/typeTest.tsx:207-220 | a displayed character is never a plain space and never one of the four replaced characters; a space shows as a non-breaking space; each of the four typographic characters shows as its plain replacement; every other character shows unchanged; punctuation stays punctuation |
| `Glyphs.IsPunctuation` | app/components/typeTest.tsx:45-64 | membership in the punctuation list; letters, digits, spaces and non-breaking spaces are never punctuation, while the four replaced characters and their replacements are |
| `Glyphs.DisplayText` | app/components/typeTest.tsx:207-220 | one span per source character, span j showing `Display` of character j, so none is a plain space or a replaced character |
| `Glyphs.LastChar` | app/components/typeTest.tsx:112 | the typed character is the input value's last character, and nothing when the input is empty |
| `Glyphs.Matches` | app/components/typeTest.tsx:120-126 | an empty input never matches; the displayed character itself always matches; a space matches a non-breaking space; in case-insensitive mode equal lower cases match; nothing else matches in either mode |
| `Glyphs.TypeableMatches` | app/components/typeTest.tsx:66-71 | the key a reader presses for any source character (the plain replacement for a typographic one) is accepted for the character displayed in its place, in either case mode |
| `Glyphs.CaseInsensitiveAcceptsMore` | app/components/typeTest.tsx:121-124 | every keystroke accepted in case-sensitive mode is accepted in case-insensitive mode |
| `Keystroke.Initial` | app/components/typeTest.tsx:34-40 | a mounted component starts with cursor 0, no mistakes, not typing, not done, start time 0, and only the first span carries the cursor mark |
| `Keystroke.Repaint` | app/components/typeTest.tsx:127-156 | an accepted keystroke at i makes span i green and not red, moves the cursor mark to i+1, or on a skip makes i+1 green and marks i+2; a rejected one makes span i red; no span other than i and i+1 changes unless the keystroke skips, when i+2 changes too; only span i can turn red |
| `Keystroke.Step` | app/components/typeTest.tsx:107-162 | nothing changes unless the cursor is inside the text; the first processed keystroke records the start time; an accepted one keeps the mistakes and advances by 1, or by 2 on a skip, which needs a following character; a rejected one adds exactly one mistake and advances by 1 only in mistakes mode; the cursor never decreases or leaves the text; the session finishes exactly when the old cursor is on the last character or a skip starts one before it; done is never cleared; spans behind the cursor never change |
| `Keystroke.Run` | app/components/typeTest.tsx:107-162 | over any sequence of keystrokes the cursor and the mistakes never decrease, the cursor stays in the text, done stays set and spans behind the starting cursor keep their marks |
| `Keystroke.StepPreservesInv` | app/components/typeTest.tsx:107-162 | one keystroke keeps the invariant: cursor within the text; done implies not typing and the cursor on or past the last character; a cursor at the end of a non-empty text implies done; spans behind the cursor green or red, the one under it cyan or red, the ones ahead unmarked; no more red spans than mistakes |
| `Keystroke.RunPreservesInv` | app/components/typeTest.tsx:107-162 | any sequence of keystrokes keeps that invariant |
| `Keystroke.InitialInv` | app/components/typeTest.tsx:207-215 | the freshly rendered spans and counters satisfy the invariant |
| `Keystroke.EmptyTextIsInert` | app/components/typeTest.tsx:114 | on an empty text no sequence of keystrokes changes the state, so it never starts and never completes |
| `Keystroke.MatchingKeysComplete` | app/components/typeTest.tsx:120-160 | without punctuation skipping, keystrokes that each match the character under the cursor reach the end without a new mistake, finish the session and turn every span they pass green |
| `Keystroke.Stops` | app/components/typeTest.tsx:131-147 | the cursor's resting places under accepted keystrokes start at the cursor, stay inside the text, and each follows the previous one by 2 when the character between is skipped punctuation and by 1 otherwise |
| `Keystroke.StopsReachEnd` | app/components/typeTest.tsx:131-147 | the step taken from the last resting place reaches the end of the text, so the resting places stop only once the text is typed |
| `Keystroke.StopsWithoutSkipping` | app/components/typeTest.tsx:131-136 | when punctuation is not skipped, the cursor rests on every position from its start to the end of the text |
| `Keystroke.MatchingStopsComplete` | app/components/typeTest.tsx:131-160 | in any mode, keystrokes that each match the character at the cursor's next resting place reach the end without a new mistake, finish the session and leave every span from the starting cursor on green and not red |
| `Keystroke.TypingTheTextCompletes` | app/components/typeTest.tsx:66-71 | pressing, at each resting place, the key its source character calls for completes a freshly mounted text without a mistake and leaves every span green |
| `Keystroke.RejectedLastKeyFinishes` | app/components/typeTest.tsx:148-160 | a rejected keystroke on the last character outside mistakes mode adds a mistake and sets done while the cursor stays on that character |
| `Keystroke.FinishedSessionKeepsCounting` | app/components/typeTest.tsx:114-118 | a done session whose cursor is still inside the text takes a new start time on every keystroke, stays done and counts each rejected one as a mistake |
| `TypeTest.Accuracy` | app/components/typeTest.tsx:239-243 | 100 without mistakes; 0 with mistakes and cursor 0; otherwise 100 * (cursor - mistakes) / cursor rounded half up; never above 100, never negative unless mistakes exceed the cursor, and then at most 0 |
| `TypeTest.Session.constructor` | app/components/typeTest.tsx:23-43 | mounting displays the mapped text, keeps the options, and starts in the initial state, which satisfies the invariant |
| `TypeTest.Session.FinishedTyping` | app/components/typeTest.tsx:86-95 | clears isTyping and sets done, leaving cursor, mistakes and start time alone |
| `TypeTest.Session.HandleChange` | app/components/typeTest.tsx:107-162 | the handler's updates of the fields and in-place repainting of the span array give exactly `Step` of the old state, and keep the invariant |
| `TypeTest.Session.ShownAccuracy` | app/components/typeTest.tsx:237-244 | the stats line shows the accuracy of the current cursor and mistakes: 100 without mistakes, 0 with mistakes at cursor 0, otherwise the ratio rounded half up, never more than 100 |
| `Page.StripLineBreaks` | app/page.tsx:20 | the text handed to the typing component contains no CR or LF, is no longer than the committed text, and starts with the committed text's first character when that is not a line break |
| `Page.StripIsNonBreaks` | app/page.tsx:20 | the regular expression's left-to-right removal of CRLF, LF and CR equals removing every CR and LF character |
| `Page.NonBreaksAppend` | app/page.tsx:20 | removing line breaks commutes with concatenation, so the kept characters keep their order |
| `Page.StripProperties` | app/page.tsx:20 | the stripped text has no line break, keeps the count of every other character, is unchanged by stripping again, and equals the input when it had no line break |
| `Page.OnlyBreaksStripToEmpty` | app/page.tsx:20 | a text of line breaks only strips to the empty text |
| `Page.View` | app/page.tsx:18-27 | the form shows exactly when the committed text is empty; otherwise the typing component gets `StripLineBreaks` of the committed text, without line breaks and no longer than the committed one, and the page's size and flags |
| `Page.OnlyBreaksNeverComplete` | app/page.tsx:18-20 | a non-empty committed text of line breaks only shows the typing component over the empty text, and no keystroke sequence changes its initial state |
| `Page.Home.constructor` | app/page.tsx:7-13 | input and text start empty, size starts at 30, all four flags start off, and the form is shown |
| `Page.Home.ToggleStats` | app/page.tsx:47 | flips showStats and nothing else |
| `Page.Home.ToggleMistakes` | app/page.tsx:62-64 | flips the mistakes flag and nothing else |
| `Page.Home.ToggleCaps` | app/page.tsx:87-89 | flips the caps flag and nothing else |
| `Page.Home.TogglePunc` | app/page.tsx:112-114 | flips the punctuation flag and nothing else |
| `Page.Home.SetSize` | app/page.tsx:143 | sets size and nothing else |
| `Page.Home.SetInput` | app/page.tsx:158 | sets the textarea content and nothing else |
| `Page.Home.StartReading` | app/page.tsx:150 | commits the textarea content verbatim and nothing else; the form stays exactly when that content is empty |
| `Page.Home.Restart` | app/page.tsx:26 | empties the committed text and nothing else, which shows the form again |
| `Page.Home.Mount` | app/page.tsx:19-27 | the mounted component displays the stripped text, gets the page's flags and starts in the initial state |
| `Scenarios.TheCatSat` | app/components/typeTest.tsx:107-162 | with the default options, typing "the cat sat" exactly ends at cursor 11, done, with no mistake |
| `Scenarios.LowerCaseHi` | app/components/typeTest.tsx:120-126 | in case-insensitive mode "hi" completes "Hi" with no mistake |
| `Scenarios.RetryAfterMistake` | app/components/typeTest.tsx:148-156 | outside mistakes mode a wrong key on "ab" leaves the cursor at 0 with one mistake, and "a", "b" then complete the text |
| `Scenarios.SkipFinalPeriod` | app/components/typeTest.tsx:132-140 | with punctuation skipped, "hi" completes "hi." and the final period's span is both cyan and green |

## Left out

- Words per minute, the elapsed time and the one-second interval that refreshes them (app/components/typeTest.tsx:88-93, 164-181): they use the wall clock and floating-point division. The clock reading enters only as the `now` parameter stored as the start time.
- `nextChunk` and the `finished` and `changeStats` callbacks (app/components/typeTest.tsx:97-105): the page never supplies them. There is no chunker and no summary in the code, so neither is modelled.
- The `size` prop: the component receives it and never uses it.
- The stats panel's visibility (`showStats`) and its "cursor/length" figure: display only. The accuracy figure it shows is modelled.
- The fireworks, the random message of encouragement, input focus and all markup and styling: presentation only.
- The option help texts and the slider's 10 to 100 range, enforced by the browser (app/page.tsx:69-127, 134-143): presentation only. The slider value enters `SetSize` as any integer.
- Glyphs.Lower: `toLocaleLowerCase` is a locale-dependent foreign call; the model lower-cases ASCII letters only.
- UTF-16 code units: `split("")` and `slice(-1)` work on UTF-16 code units, while the model treats text as a sequence of characters. A character outside the Basic Multilingual Plane is one span here and two in the browser.
- TypeTest.Accuracy: computed on exact rationals. JavaScript divides in floating point first, which can round the other way at an exact half when (cursor - mistakes) / cursor is not a binary fraction.
