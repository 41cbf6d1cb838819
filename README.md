# Win-streak tracker: data layer model

A Dafny model of the data layer of a small desktop win-streak tracker for a
multiplayer game. Each tracked character (a killer, or the single "survivor"
entry) has named streak categories. Each category holds a `current` streak and
a `best` streak. The model covers:

- how category names are read from a comment-tolerant text file, with the
  built-in defaults as a fallback (`CategorySource`);
- how a character's display name is derived from its image file's stem
  (`NameFormat`);
- how saved characters, characters discovered in the media folder and the
  configured categories are merged into one sorted list in which every
  character has every category of its group (`Reconcile`);
- how the store selects a character or a category by name and records a win
  or a loss, including the rule that a best "4k" streak also counts as a best
  "3k" streak (`StreakStore`).

Letter case, white space and case-insensitive comparison are modelled over
ASCII (`Text`). String order is the lexicographic order of code points, which
is the byte-wise order Rust uses for `String`.

Files: `wrappers.dfy` (Option, first-position search), `text.dfy`,
`categories.dfy`, `names.dfy`, `reconcile.dfy`, `store.dfy`.

In these places the code behaves in ways that are easy to miss; the model follows the code:

- A newly discovered character gets one zeroed streak per category line, and
  duplicate lines are kept, so it can hold two streaks with the same name.
  `ensure_categories` never appends a duplicate. `Reconcile.IsDiscovered`
  states the code's behaviour.
- After a win, the "4k" rule runs even when the selected streak index is out
  of range. When the index is out of range, the displayed pair is (0, 0)
  (`StreakStore.Recorded`, `StreakStore.Shown`).
- `load_data` writes the list back before it sorts it. So the written list is
  the unsorted one: `Reconcile.Reconcile` returns it as `saved`, which has the
  same elements as the sorted result.
- The selection callbacks return nothing. The model's `SelectCharacter` and
  `SelectCategory` return whether the name was found, and state no change
  when it was not.

## Model

| member | source | states |
|---|---|---|
| `Wrappers.Position` | src/main.rs:234-237 | the index returned holds `x` and no earlier element does; None exactly when `x` does not occur (`Iterator::position` / `find`) |
| `Text.LeadingSpaces` | src/main.rs:41 | the count of white-space characters at the front: all of them white space, and the next one not |
| `Text.TrailingSpaces` | src/main.rs:41 | the count of white-space characters at the back: all of them white space, and the one before them not |
| `Text.Trim` | src/main.rs:41 | the result is an infix of the line that neither starts nor ends with white space, and everything outside it is white space |
| `Text.TrimIdempotent` | src/main.rs:41 | trimming a trimmed line changes nothing |
| `Text.ToAsciiLower` | src/main.rs:135 | ASCII upper-case letters map to their lower-case letters, and every other character is unchanged |
| `Text.NameLeTotal` | src/main.rs:177 | any two names are comparable in the sort order |
| `Text.NameLeTransitive` | src/main.rs:177 | the sort order is transitive |
| `Text.NameLeAntisymmetric` | src/main.rs:177 | two names that are each at most the other are equal |
| `Text.NameLeReflexive` | src/main.rs:177 | every name is at most itself in the sort order (`NameLe`, the code-point order of `String::cmp`) |
| `Text.NameLePrefix` | src/main.rs:177 | a name sorts no later than any name it is a prefix of |
| `Text.EqualsIgnoreAsciiCaseEquivalence` | src/main.rs:130 | comparing ignoring ASCII case (`EqualsIgnoreAsciiCase`, `eq_ignore_ascii_case`) is reflexive, symmetric and transitive |
| `Text.EqualsIgnoreAsciiCaseExamples` | src/main.rs:130 | `PNG` and `Png` match `png`; `pngs` and `jpg` do not |
| `CategorySource.ReadableLines` | src/main.rs:39-40 | the lines read are the texts before the first read error, in order |
| `CategorySource.FilterLines` | src/main.rs:38-43 | no more categories than lines; each category is non-empty and does not start with `#` |
| `CategorySource.FilterLinesAppend` | src/main.rs:38-43 | each line is judged on its own, and the survivors keep file order: filtering distributes over concatenation |
| `CategorySource.FilterLinesMembership` | src/main.rs:41-42 | a string is returned iff it is the trimmed form of a line that, once trimmed, is non-empty and does not start with `#` |
| `CategorySource.FilterLinesTrimmed` | src/main.rs:41 | every returned category is already trimmed |
| `CategorySource.FilterLinesIdempotent` | src/main.rs:38-43 | filtering the returned categories again returns them unchanged |
| `CategorySource.LoadCategories` | src/main.rs:35-56 | the result is the defaults, or a non-empty list of trimmed category names read from an opened file |
| `CategorySource.LoadCategoriesFallback` | src/main.rs:45-55 | a missing file, or one naming no category, gives the defaults; otherwise the result is exactly the file's categories |
| `NameFormat.ReplaceUnderscores` | src/main.rs:96 | same length; each `_` becomes a space and every other character stays |
| `NameFormat.SpacedLength` | src/main.rs:97-104 | the spaced name is the text plus exactly one character per lower-to-upper boundary |
| `NameFormat.SpacedAt` | src/main.rs:97-104 | character i of the text sits at position i plus the number of boundaries up to i; at a boundary, the position before it holds the inserted space |
| `NameFormat.SpacedChars` | src/main.rs:97-104 | spacing introduces no character other than a space |
| `NameFormat.Push` | src/main.rs:99-103 | one fold step only appends to the text built so far: the character itself, preceded by a space exactly when it is upper-case and the text ends in a lower-case letter |
| `NameFormat.FoldSpaced` | src/main.rs:98-104 | the fold (`Fold`) that looks at the accumulated text's last character equals the reference spacing, which looks at the previous input character |
| `NameFormat.FoldAppend` | src/main.rs:98-104 | folding a concatenation continues the fold of the first part |
| `NameFormat.FoldNoUpper` | src/main.rs:98-104 | text with no upper-case letter is copied unchanged onto what has been built so far |
| `NameFormat.FoldTwoWords` | src/main.rs:98-104 | for two words capitalised at most on their first letter, the second word's first letter is pushed onto the first word (a space goes first when it is upper-case and the first word ends in a lower-case letter), and the rest is copied |
| `NameFormat.FormatNameIsSpaced` | src/main.rs:95-105 | `format_name` (`FormatName`) is the spacing of the stem with underscores replaced |
| `NameFormat.FormatNameHasNoUnderscore` | src/main.rs:96 | a derived name never contains `_` |
| `NameFormat.FormatNameTrapper` | src/main.rs:95-105 | `The_Trapper` gives `The Trapper` |
| `NameFormat.FormatNamePigMask` | src/main.rs:95-105 | `PigMask` gives `Pig Mask` |
| `NameFormat.FormatNameOni` | src/main.rs:95-105 | `Oni` gives `Oni` |
| `Reconcile.EnsureCategories` | src/main.rs:80-93 | the old streaks are an unchanged prefix; every category is present afterwards; appended streaks are zeroed, new, and in category order; the result is true iff some category was missing iff something was appended; when false, the character is unchanged |
| `Reconcile.ExtendedUpToAppend` | src/main.rs:83-89 | appending a category missing so far keeps the loop state of `ensure_categories`, and that category was missing from the original streaks |
| `Reconcile.ExtendedUpToSkip` | src/main.rs:83 | skipping a category that is present keeps the loop state; when nothing has been appended yet, the original streaks held it |
| `Reconcile.ExtendsAppendsMissing` | src/main.rs:83-89 | every appended streak is named after a category the character lacked |
| `Reconcile.ExtendsComplete` | src/main.rs:80-93 | a character that already has every category is left unchanged, so a second call changes nothing |
| `Reconcile.MergeDiscovered` | src/main.rs:124-156 | loaded characters stay in front, unchanged; every `.png` entry's derived name is present; each appended character has a name new at that point, the image of the first entry with that name, and zeroed streaks for its group's categories; true iff some entry had a new name |
| `Reconcile.MergeStepAppend` | src/main.rs:134-152 | one loop step for a new name keeps the discovery invariant |
| `Reconcile.MergeStepSkip` | src/main.rs:134 | one loop step for a known name or a non-png entry keeps the discovery invariant without appending |
| `Reconcile.EnsureAllCategories` | src/main.rs:158-171 | every character is extended by the categories of its group (survivor group iff its name equals "survivor" ignoring ASCII case); the result is true iff some character lacked one; when false, the list is unchanged |
| `Reconcile.GroupCategoriesIgnoresCase` | src/main.rs:135-139 | names that differ only in ASCII case select the same category group (`GroupCategories`, `IsSurvivor`) |
| `Reconcile.GroupCategoriesExamples` | src/main.rs:160-164 | `Survivor` and `SURVIVOR` get the survivor categories; `Nurse` and `Survivors` get the killer categories |
| `Reconcile.IsPngExamples` | src/main.rs:127-130 | an entry is a character (`IsPng`) with extension `png` or `PNG`, and not with `jpg` or with no extension |
| `Reconcile.NewCharacter` | src/main.rs:140-151 | a discovered character has the formatted stem as its name and the entry's path as its image, and one zeroed streak per category of its group, named after those categories in their order, so it has all of them |
| `Reconcile.ZeroedHasAll` | src/main.rs:143-150 | a character created with its group's zeroed streaks already has all of that group's categories |
| `Reconcile.InsertByName` | src/main.rs:177 | inserting into a sorted list keeps it sorted and adds exactly that character |
| `Reconcile.SortByName` | src/main.rs:177 | the result is sorted by name and is a permutation of the input |
| `Reconcile.SortSorted` | src/main.rs:177 | sorting an already sorted list leaves it unchanged |
| `Reconcile.InsertUnique` | src/main.rs:177 | inserting a character with a new name keeps names unique |
| `Reconcile.SortUnique` | src/main.rs:177 | sorting keeps names unique |
| `Reconcile.PhasesTail` | src/main.rs:124-171 | after both loops, the loaded characters lead the list; every later character was discovered and the category loop left it unchanged |
| `Reconcile.SortedOrigins` | src/main.rs:124-177 | every sorted character has its group's categories and is an extended loaded character or a discovered one; every loaded character survives; every `.png` name is present |
| `Reconcile.PhasesUnique` | src/main.rs:134 | unique loaded names stay unique through discovery |
| `Reconcile.PhasesOrigins` | src/main.rs:124-171 | after both loops, position i holds loaded character i extended by its group's categories, and every later position holds a discovered character whose name no earlier one has |
| `Reconcile.OriginsKeepCount` | src/main.rs:159-178 | a list with the same elements as the list after both loops is as long as it, and at least as long as the loaded list |
| `Reconcile.Reconcile` | src/main.rs:124-178 | the list before sorting keeps each loaded character, extended, at its own position, followed by the discovered ones, each with a new name; the result has exactly its elements, and the written list is that list; the result is sorted, covers every `.png` entry and gives every character its group's categories; loaded characters survive with their streaks as a prefix; the rest are discovered; unique names stay unique; a list is written iff something was added, with the same elements; an already reconciled list is returned unchanged and not written (idempotence) |
| `Reconcile.LoadData` | src/main.rs:107-178 | all the properties of `Reconcile`, including the position-by-position origins of the list before sorting, for the categories read from both files and the saved list, where a missing or undecodable file is empty |
| `Reconcile.FirstStartInputs` | src/main.rs:127-135 | `Nurse.png` is a `.png` entry naming the killer `Nurse`, and missing category files give the defaults |
| `Reconcile.FirstStartResult` | src/main.rs:124-171 | with nothing saved and only `Nurse.png` in the folder, a covering list of discovered characters with unique names is exactly the zeroed `Nurse` |
| `Reconcile.FirstStartScenario` | src/main.rs:107-178 | with no files at all and `Nurse.png` in the media folder: exactly one character `Nurse`, with the four default categories zeroed, and the list is written |
| `StreakStore.BumpAt` | src/main.rs:283-290 | only the selected streak changes, to its bumped counters; the length and names stay the same, and an out-of-range index changes nothing |
| `StreakStore.Bump` | src/main.rs:284-289 | a win adds one to the current streak and sets the best to max(old best, new current): at least both, and equal to one of them; a loss zeroes the current and keeps the best; 0 <= current <= best is kept |
| `StreakStore.PropagateFourK` | src/main.rs:293-306 | the "4k" rule keeps length, names and currents, never lowers a best, and changes nothing but the first "3k" streak, and that only when a "4k" exists; when both exist, that best becomes max(its own best, the first "4k" best) |
| `StreakStore.Recorded` | src/main.rs:283-306 | recording keeps the character's name, its image, and the number and names of its streaks |
| `StreakStore.Shown` | src/main.rs:308-312 | the pair shown is the selected streak's (current, best) when the index is in range and (0, 0) otherwise; 0 <= current <= best when the selected streak is consistent |
| `StreakStore.RecordedLoss` | src/main.rs:287-289 | a loss zeroes the selected current, keeps its best and changes no other streak; an out-of-range index changes nothing |
| `StreakStore.RecordedWin` | src/main.rs:284-286 | a win gives current + 1 and a best of at least max(best, current + 1); exactly that unless the "4k" rule raises this same streak |
| `StreakStore.RecordedWinFrame` | src/main.rs:283-306 | after a win, streaks other than the selected one and the one the "4k" rule raises are unchanged |
| `StreakStore.RecordedFourKFloor` | src/main.rs:293-306 | after a win on a non-survivor with both "4k" and "3k", the first "3k" best becomes max(own best, first "4k" best), so it is at least the "4k" best; this also happens when the index is out of range |
| `StreakStore.RecordedSurvivor` | src/main.rs:292-293 | for the survivor, a win changes no streak but the selected one |
| `StreakStore.RecordedBestMonotone` | src/main.rs:286 | no best ever decreases |
| `StreakStore.RecordedConsistent` | src/main.rs:283-306 | streaks with 0 <= current <= best keep that property |
| `StreakStore.RecordedAllMonotone` | src/main.rs:277-312 | over any run of wins and losses, no best decreases and consistent streaks stay consistent |
| `StreakStore.BumpExamples` | src/main.rs:284-289 | (5, 7) and a loss give (0, 7); (2, 2) and a win give (3, 3); (0, 5) and a win give (1, 5) |
| `StreakStore.ClampIndex` | src/main.rs:202 | the shown index is at most the selected one and in range when there is any streak; it equals the selected index when that is in range, and otherwise the last index (0 when there are no streaks) |
| `StreakStore.Store.constructor` | src/main.rs:211-213 | the store holds the loaded list with the first character and its first streak selected |
| `StreakStore.Store.SelectCharacter` | src/main.rs:234-243 | found iff a character has exactly that name; then the first such character is selected and the streak index resets to 0; otherwise nothing changes |
| `StreakStore.Store.SelectCategory` | src/main.rs:255-267 | found iff the selected character has a streak with exactly that name; then the first such streak is selected; otherwise nothing changes |
| `StreakStore.Store.Record` | src/main.rs:277-312 | only the selected character changes, to `Recorded` of it; the returned pair is the selected streak's counters, or (0, 0) |
| `StreakStore.Store.DisplayIndex` | src/main.rs:202 | the streak index shown for the selected character: at most the selected one, in range when there are streaks, and equal to the selected one when that is in range |

## Left out

- File and directory I/O is not modelled. This covers opening and reading the
  category files, creating the default category file (`create_default_streaks_file`),
  listing the media folder, taking a path's extension and stem, and writing the
  saved file (`save_data`), which `record` also calls after every outcome. They appear as parameters: a file's lines (None when it
  cannot be opened), the folder's entries (None when it cannot be read), and the
  list that would be written.
- JSON encoding and decoding are done by a foreign library. The decoded saved list
  is a parameter, where None stands for a missing or malformed file. The encode and
  decode round trip is therefore not modelled.
- All window code is left out: property setters, image loading, window
  construction and callback wiring. The one exception is the index clamp.
- Shared ownership through `Rc<RefCell<..>>` is replaced by one `Store` object.
  When `try_borrow_mut` fails, `record` does nothing; that case is not modelled.
- `StreakStore.Store.Record`: counters are unbounded integers. The `i32` overflow
  of `current += 1` is not modelled.
- `StreakStore.Store.SelectCategory` and `StreakStore.Store.Record`: indexing the
  character list panics when the list is empty. This is a precondition (a non-empty
  list, with the selected index in range).
- Letter case, white space, `trim` and `eq_ignore_ascii_case` are modelled over ASCII.
  Unicode upper-case, lower-case and white-space characters outside ASCII are not.
- The `unwrap` calls on a file stem that is not valid UTF-8 panic in the source.
  Entries are given with their stems already decoded.
- `Reconcile.SortByName`: the contract states sortedness and permutation, not
  stability. With unique names the two are the same.
