# Git & GitHub lecture site: page behaviour in Dafny

This project models the client-side rules of a static lecture website about
Git and GitHub: `js/main.js`, loaded on every page, and `js/practice.js`,
loaded on the practice pages. Both are event handlers over the page's
elements. The model keeps the logic behind them and proves what each handler
promises:

- **Copy button** (`CopyText`). A code block's text is put on the clipboard
  after three steps. First a leading shell prompt `"$ "` is removed from every
  line. Then every comment line (`"# "` plus at least one character) is
  removed with its newline. Finally the result is trimmed. The two regular
  expressions are modelled as line scanners. They are proved equal to a line
  view of the text: split at `'\n'`, strip each line, keep the non-comment
  lines, join, trim.
- **Chapter progress** (`Progress`, `ProgressPage`, `ChapterUrl`). Local
  storage keeps a mapping from chapter id to a completion flag. The
  completion button toggles the current chapter. The sidebar, chapter header
  and index page show the completed count out of 9 and the rounded
  percentage. The chapter id comes from the button's `data-chapter` attribute
  or from `chapters/<digits>` in the URL path. The pages are classes whose
  fields are the elements' classes and texts; the handlers are methods on
  them.
- **Tab groups** (`Tabs`). Diagram tabs and practice state panels are two
  arrays of `active` flags. A click clears both rows and marks the clicked
  index.
- **Practice missions** (`Practice`). Each step's check button toggles
  `step-done`. The section's `done / total` label and its `mission-complete`
  class are recomputed after every click. Scenario cards open and close.
- **Small widgets** (`Widgets`). Quiz items, the image modal, the mobile
  sidebar and the marking of the current page in the sidebar.

Elements a page may lack are `has...` flags: a missing element is left
alone, as the source's `if (el)` guards do. `'\n'` is the only line
terminator in the copy transform. A JavaScript regular expression with the
`m` flag also treats `'\r'`, U+2028 and U+2029 as line ends.

The prompt line keeps its command, so `"$ git status\n# a comment\noutput line"`
copies as `"git status\noutput line"` (`CopyText.SanitizeExample`).

## Model

| member | source | states |
|---|---|---|
| Common.Decimal | js/main.js:93 | `${n}` for a count is a non-empty digit string, without a leading zero unless it is `0` |
| Common.DecimalRoundTrip | js/main.js:93 | reading back the digits `Decimal` writes gives the number again |
| Common.ReadLeadingNumber | js/main.js:93 | a count written in front of a label's text is exactly the label's leading digits and reads back as the count |
| Common.CountTrue | js/practice.js:26-27 | counting the flagged elements of a row never exceeds the row's length |
| Common.CountAllIff | js/practice.js:32 | the done count equals the total exactly when every step is done |
| Common.CountNoneIff | js/practice.js:27 | the done count is zero exactly when no step is done |
| Common.CountUpdate | js/practice.js:15 | changing one flag changes the count by that flag's change alone |
| CopyText.LineEnd | js/main.js:28-29 | the first line ends at the first `'\n'` or at the end of the text |
| CopyText.LineEndUnique | js/main.js:28-29 | those two properties determine the line end |
| CopyText.Lines | js/main.js:28-29 | the split has at least one line and no line contains `'\n'` |
| CopyText.JoinLines | js/main.js:28-29 | splitting at `'\n'` and joining again gives the text back |
| CopyText.LinesJoin | js/main.js:28-29 | joining lines without `'\n'` and splitting again gives the lines back |
| CopyText.StripPrompt | js/main.js:28 | a line starting with `"$ "` loses exactly that prefix; any other line is unchanged |
| CopyText.StripPrompts | js/main.js:28 | removing prompts never lengthens the text; `StripPromptsByLine` gives its meaning |
| CopyText.StripPromptsByLine | js/main.js:28 | the `^\$ ` replacement strips the prompt from each line separately and keeps the line structure |
| CopyText.StripEachNoNewline | js/main.js:28 | stripping a prompt never creates a line break |
| CopyText.DropComments | js/main.js:29 | removing comment lines never lengthens the text; `DropCommentsByLine` gives its meaning |
| CopyText.Kept | js/main.js:29 | no more lines are kept than there are |
| CopyText.KeptMembers | js/main.js:29 | a line is kept exactly when it is one of the lines and not a comment |
| CopyText.KeptNoneMeansLastComment | js/main.js:29 | if nothing is kept, the last line is a comment |
| CopyText.KeptConsComment | js/main.js:29 | a comment line in front of the rest adds nothing to the output |
| CopyText.KeptConsLine | js/main.js:29 | a non-comment line in front of the rest is kept with the newline after it; if the rest keeps nothing, that newline is the one left over |
| CopyText.DropCommentsStep | js/main.js:29 | a non-comment line in front of the rest adds itself and its newline to the output |
| CopyText.DropCommentsByLine | js/main.js:29 | the `^# .+\n?` replacement keeps exactly the non-comment lines in order; a comment on the last line leaves the newline before it |
| CopyText.TrimStart | js/main.js:30 | only white space is removed from the front, and the result does not start with white space |
| CopyText.TrimEnd | js/main.js:30 | only white space is removed from the end, and the result does not end with white space |
| CopyText.Trim | js/main.js:30 | the trimmed text is no longer than the input and has no white space at either end |
| CopyText.TrimmedIsFixed | js/main.js:30 | text with no white space at either end is unchanged by `trim` |
| CopyText.TrimAppendSpace | js/main.js:30 | a trailing white-space character does not change the trimmed text |
| CopyText.Sanitize | js/main.js:27-30 | the copied text has no white space at either end |
| CopyText.SanitizeByLine | js/main.js:27-30 | the copied text is the trimmed join of the non-comment lines after each line's prompt is stripped |
| CopyText.SanitizeExample | js/main.js:27-30 | `"$ git status\n# a comment\noutput line"` copies as `"git status\noutput line"` |
| CopyText.PromptedCommentDisappears | js/main.js:28-29 | the prompt is stripped first, so `"$ # x"` becomes a comment and disappears |
| CopyText.NotComments | js/main.js:28-29 | only one prompt per line is removed; `"#x"`, a bare `"# "` and a `"# "` inside a line are not comments |
| ChapterUrl.DigitRun | js/main.js:77 | `\d+` takes the longest run of leading digits |
| ChapterUrl.FirstMatchFrom | js/main.js:77 | the scan finds the leftmost position of `chapters/` followed by a digit, or reports that there is none |
| ChapterUrl.ChapterIdFromUrl | js/main.js:75-79 | an id exists exactly when the path contains `chapters/` followed by a digit; it is the digit run at the leftmost such place, non-empty and all digits |
| ChapterUrl.ChapterIdIsMaximal | js/main.js:77-78 | the id is the whole digit run: the next character of the path is not a digit |
| ChapterUrl.ResolveChapterId | js/main.js:111-112 | a non-empty `data-chapter` wins; otherwise the URL decides; a resolved id is never empty |
| ChapterUrl.ChapterIdExample | js/main.js:75-79 | `/chapters/12/` yields `12` |
| Progress.Load | js/main.js:65-69 | reading storage gives the saved mapping; a missing, empty or unparsable entry reads as the empty mapping |
| Progress.Toggled | js/main.js:122-129 | the chapter's truthiness flips; a truthy chapter is deleted; only `true` is written; every other key keeps its value |
| Progress.ToggleKeepsAllTrue | js/main.js:125-129 | a mapping holding only `true` keeps holding only `true` after a click |
| Progress.ToggleTwice | js/main.js:122-135 | under that invariant two clicks give the stored mapping back |
| Progress.ToggleTwiceNeedsAllTrue | js/main.js:123-129 | without that invariant they do not: a stored `false` is first set and then deleted |
| Progress.CompletedCount | js/main.js:81-84 | the count of truthy values is at most the number of stored chapters, and zero exactly when none is truthy |
| Progress.ToggleCount | js/main.js:81-84 | completing a chapter raises the completed count by one; undoing it lowers it by one |
| Progress.AllTrueCount | js/main.js:83 | under the invariant the completed count is the number of stored chapters |
| Progress.Percent | js/main.js:88 | the percentage is within one half of `100 * count / 9` |
| Progress.PercentIsRounding | js/main.js:88 | only one integer is that close, so `Percent` is `Math.round` of the exact value |
| Progress.PercentExamples | js/main.js:277 | 0, 3, 6 and 9 chapters show 0, 33, 67 and 100 percent |
| Progress.PercentMonotone | js/main.js:88 | more completed chapters never show a smaller percentage |
| Progress.PercentUncapped | js/main.js:63-88 | the count is not capped, so more than nine truthy ids show more than 100 percent |
| Progress.SidebarLabel | js/main.js:93 | the sidebar label opens with the count, read back from its leading digits |
| Progress.HeaderLabel | js/main.js:145 | the header label opens with the count, read back from its leading digits |
| Progress.PercentText | js/main.js:283 | the index percentage opens with the percentage's digits and ends with `%` |
| ProgressPage.ProgressStore.Get | js/main.js:65-69 | a read gives the saved mapping, and the empty mapping when nothing was saved |
| ProgressPage.ProgressStore.Save | js/main.js:71-73 | the next read gives back the mapping just saved |
| ProgressPage.ChapterPage.UpdateSidebarProgress | js/main.js:86-105 | bar and label show the stored count, and each nav link is `completed` exactly when its chapter is truthy; the outcome depends on storage alone |
| ProgressPage.ChapterPage.UpdateHeaderProgress | js/main.js:141-147 | the header shows the stored count, if the header exists |
| ProgressPage.ChapterPage.InitCompleteButton | js/main.js:107-119 | the button gets a chapter id only if it exists and an id resolves; a chapter already complete shows as done |
| ProgressPage.ChapterPage.ClickComplete | js/main.js:121-138 | storage holds the toggled mapping; the button follows the new state; only a completion shows the toast; sidebar and header show the new storage |
| ProgressPage.ClickTwice | js/main.js:121-138 | two clicks restore storage and show one toast |
| ProgressPage.IndexPage.InitIndexPage | js/main.js:274-294 | bar and percentage show the stored count; a card with a status element is marked done when its chapter is truthy, and no card is unmarked |
| Tabs.SelectTab | js/main.js:261-266 | after a click only the clicked tab is active, and only the panel at its index, if any |
| Tabs.SelectedExactlyOne | js/main.js:262-264 | after a click exactly one tab of the group is active |
| Tabs.PanelsAtMostOne | js/main.js:263-265 | after a click one panel is active, or none when the group has no panel at that index |
| Tabs.ClickDiagramTab | js/main.js:253-269 | a tab group with an interactive container switches; one without it has no listener and changes nothing |
| Tabs.MarkFirst | js/practice.js:54-55 | setup sets the first flag and clears none |
| Tabs.InitStatePanel | js/practice.js:53-55 | setup activates tab 0 and view 0 when present and changes nothing else |
| Tabs.InitNotExclusive | js/practice.js:54-55 | setup alone can leave two tabs active |
| Practice.CheckText | js/practice.js:17 | the button reads `✅ 완료` exactly when the step is done and `⬜ 완료` exactly when it is not |
| Practice.MissionLabel | js/practice.js:31 | the section label opens with the done count, read back from its leading digits |
| Practice.MissionComplete | js/practice.js:32 | the rule `done === total && total > 0` over the step flags; `Practice.MissionCompleteIff` states what it means |
| Practice.MissionCompleteIff | js/practice.js:32 | a section is complete exactly when it has steps and every step is done |
| Practice.UndoBreaksCompletion | js/practice.js:32-36 | undoing any step of a complete section makes it incomplete |
| Practice.FlipStepCount | js/practice.js:15-27 | one click moves the done count by exactly one |
| Practice.MissionExample | js/practice.js:26-36 | two of three steps done is `2 / 3` and incomplete; doing the third completes the section |
| Practice.PracticeSection.UpdateMissionProgress | js/practice.js:24-37 | the label shows the done and total counts, and `mission-complete` is set by the rule |
| Practice.PracticeSection.ClickCheck | js/practice.js:11-20 | only step `i` flips; its button's class and text follow the step; the section is recounted; a step without a button has no listener |
| Practice.ClickCheckTwice | js/practice.js:14-19 | two clicks restore every step |
| Practice.ScenarioInit | js/practice.js:59-65 | setup hides the body of a card with a header and a body and changes nothing else; any other card is left as it is |
| Practice.ScenarioClick | js/practice.js:62-72 | a header click flips the body's visibility, `open` follows it, and the icon is `▼` when open and `▶` when closed; a card without a header or a body has no listener and does not change |
| Practice.ScenarioTwoClicks | js/practice.js:67-72 | two clicks restore the body's visibility |
| Practice.ScenarioClickCycle | js/practice.js:67-72 | after the first click, every two clicks restore the whole card |
| Widgets.QuizClick | js/main.js:166-172 | a click flips the quiz item's `checked` class |
| Widgets.ModalStep | js/main.js:197-213 | an image click opens the modal with that image's `src` and `alt`; ✕, a click on the overlay itself and Escape close it; every other event changes nothing |
| Widgets.ModalDismissIdempotent | js/main.js:207-213 | closing an already closed modal changes nothing |
| Widgets.SidebarClick | js/main.js:231-248 | the toggle flips the sidebar; a click inside it changes nothing; a click elsewhere closes it; without both elements nothing happens |
| Widgets.SidebarToggleTwice | js/main.js:236-238 | two toggle clicks restore the sidebar |
| Widgets.IncludesFrom | js/main.js:222 | the search from a position succeeds exactly when the substring occurs at or after it |
| Widgets.Includes | js/main.js:222 | `includes` holds exactly when the substring occurs somewhere |
| Widgets.MarkActiveLinks | js/main.js:219-226 | a link whose `href` occurs in the path becomes active, and no link loses `active` |
| Widgets.EmptyHrefAlwaysIncluded | js/main.js:222 | an empty `href` matches every path |

## Left out

- Clipboard writes, the `execCommand` fallback and the two-second label revert (js/main.js:31-52): these are asynchronous browser APIs and a timer.
- The toast's element, style and three-second removal (js/main.js:149-161): the model counts how many toasts are shown (`toastsShown`).
- `localStorage` and JSON (js/main.js:65-73) are an abstract store. `Progress.Load` reduces each stored value to its truthiness. It does not model a stored `null`, which makes `getCompletedCount` throw. It does not model a stored JSON array, number, string or boolean, nor keys inherited through the prototype. A stored string such as `"abc"` would count one chapter per character. A stored `true` would make a click show the toast while storing nothing.
- The scroll reveal (js/main.js:299-313) and hover effects (js/main.js:318-333): these are observer callbacks and style strings.
- The width of the practice progress bar (js/practice.js:30): it is a floating-point percentage and may divide by zero. Only the integer counts and the complete flag are modelled.
- Progress bar widths are kept as the integer percentage, not as the CSS string `pct + '%'`.
- CopyText.Sanitize: `'\r'`, U+2028 and U+2029 are not line ends in the model, although the `m` flag treats them as such, and `innerText` is taken as a given string.
- Practice.PracticeSection.ClickCheck: a step outside any practice section (where `updateMissionProgress(null)` returns at once) is not modelled; every step belongs to its section.
- Tabs.SelectTab: the tabs and panels are distinct rows. Two tab groups sharing one diagram container, and so the same panels, are not modelled.
- Practice.ScenarioClick: a header without a toggle icon makes the listener throw after the body and class are updated. The model keeps the icon text unchanged and so does not model the exception.
- Widgets.MarkActiveLinks: a link without an `href` attribute (where `includes(null)` searches for `"null"`) is not modelled.
- DOM queries, markup and selectors: elements are flags, strings and arrays of flags, in document order.
