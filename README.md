# oper, modelled in Dafny

oper browses the recent history of many git repositories at once. The
repositories are the projects of a `repo` checkout. The program walks each
repository's history back to an age limit and drops commits whose author or
message does not match the wanted pattern. It merges what remains into one
list, newest first. It shows that list in a terminal table, and a selected
commit's header and diff in a list widget. It can export the list as a CSV,
ODS or XLSX report.

This project models the core of that program and proves what it promises:

- `Text` (text.dfy) holds the string rules the core relies on:
  - ASCII lower-casing;
  - substring search;
  - `split('\n')` and its inverse `Join`;
  - the decimal formatting used by `time_as_str`, plus a parser that inverts it.
- `Utils` (utils.dfy) models `src/utils.rs`:
  - `as_datetime` and `as_datetime_utc`. git2's `Time` is a pair (seconds, offset in minutes). A date-time is an instant plus a fixed offset.
  - A proleptic Gregorian calendar. It turns local seconds into the year, month, day, hour and minute fields that `time_as_str` prints. Its inverse is proved.
  - The search for the nearest ancestor holding a `.repo` directory, with `find_repo_folder` and `find_project_file` built on it. The file system is an abstract oracle: a directory listing per path, and an is-file test.
- `Model` (model.dfy) models `src/model.rs`:
  - `Repo::from`, `RepoCommit::from`, `Classifier::new` and `Classifier::classify`. Day counts truncate toward zero and wrap through `as u32`, as the code does.
  - The per-repository walk that stops at the first aborting commit.
  - The throw-away of a repository on any git failure, the concatenation of all repositories' commits, and the final newest-first sort.
  - `time_as_str`, with its peculiar offset format.
- `Views` (views.dfy) holds what both list widgets share:
  - the row→item map and the proof that it is a permutation;
  - the delete-and-renumber step of `remove_item`;
  - the focus arithmetic;
  - the key and event-result vocabulary.
- `TableViews` (table_view.dfy) models `src/views/table_view.rs` as the class `TableView`. Its fields are `items`, `rowsToItems`, `focus`, `columns`, `columnIndicies` and `columnSelect`. The methods update them in place, and each keeps `Valid()`:
  - `rowsToItems` is a permutation of the item indices;
  - `columnIndicies[columns[k].column] == k`;
  - at most one header is selected.
- `ListViews` (list_view.dfy) models `src/views/list_view.rs` as the class `ListView`. It has the same bookkeeping without columns, and the items are styled lines.
- `DiffViews` (diff_view.dfy) models `src/views/diff_view.rs`: `trim_newline`, `style_of`, the sigil prefixes, and the lines `set_commit` puts into a fresh `ListView`.
- `Reports` (report.dfy) models `src/report.rs`:
  - the extension dispatch of `generate`, with `Path::extension` on '/'-separated paths;
  - `model_into_spreadsheet` driving a builder;
  - the `OdsXlsxSpreadsheet` row/column cursor, proved to put cell k of row r at (r, k).
- `Wrappers` (wrappers.dfy) holds `Option` and `Result`.

Calls into code that is not visible become inputs:

- A repository's git walk is either a failure (open, revwalk or `push_head`) or its sequence of outcomes in walk order. Each outcome is a resolved commit or an id that could not be resolved.
- The current time, the diff of a commit and the CSV writer's I/O failure are also inputs.

## Model

| member | source | states |
|---|---|---|
| Text.AsciiLower | src/model.rs:259 | upper-case ASCII letters move down by 32; every other character is kept |
| Text.AsciiLowercase | src/model.rs:264 | the result has the input's length, and each character is that character lower-cased |
| Text.AsciiLowercaseIdempotent | src/model.rs:258-261 | lower-casing a pattern already lower-cased at construction changes nothing |
| Text.ContainsEmpty | src/model.rs:260 | the empty pattern occurs in every message |
| Text.ContainsSelf | src/model.rs:265 | every string contains itself |
| Text.Split | src/views/list_view.rs:304 | `split('\n')` yields at least one piece |
| Text.JoinSplit | src/views/list_view.rs:304 | joining the pieces with the separator gives back the input |
| Text.SplitPiecesFree | src/views/list_view.rs:304 | no piece contains the separator |
| Text.SplitCount | src/views/list_view.rs:304 | there is one more piece than there are separators |
| Text.SplitTrailingSeparator | src/views/list_view.rs:303-307 | a trailing separator yields an empty last piece |
| Text.SplitNoSeparator | src/views/list_view.rs:304 | a string without the separator is its own single piece |
| Text.SplitConcat | src/views/list_view.rs:304 | splitting `a + sep + b` is splitting `a`, then splitting `b` |
| Text.Digits | src/model.rs:178 | decimal digits of a number: non-empty, all digits, no leading zero |
| Text.ParseDigitsOfDigits | src/model.rs:178 | parsing the digits of n gives n |
| Text.ZeroPad | src/model.rs:178 | padding to a width makes it at least that long and no longer than needed |
| Text.FormatInt | src/model.rs:177-186 | `{:0w}` / `{:+0w}` formatting is at least w characters long |
| Text.FormatIntNoNewline | src/model.rs:177-186 | formatted numbers contain no newline |
| Text.ParseFormatInt | src/model.rs:178 | parsing a formatted number (padded, signed or not) gives the number back |
| Utils.Ancestors | src/utils.rs:36 | `ancestors()`: the path itself first, then each parent, down to the root |
| Utils.FileName | src/model.rs:131 | a non-empty path has a file name, and it is its last component |
| Utils.AsDateTime | src/utils.rs:52-55 | the instant is `seconds`; local time is `offset_minutes * 60` seconds east of it |
| Utils.AsDateTimeUtc | src/utils.rs:60-62 | the same instant at offset 0 |
| Utils.UtcIgnoresOffset | src/utils.rs:60-62 | two times with equal seconds have equal UTC date-times; their local times differ by 60 × the difference in offset |
| Utils.CivilFromDays | src/model.rs:179-181 | every day number has a valid calendar date that maps back to it |
| Utils.DaysFromCivilInjective | src/model.rs:179-181 | distinct valid dates have distinct day numbers |
| Utils.CivilFromDaysFromCivil | src/model.rs:179-181 | turning a valid date into its day number and back returns the date |
| Utils.Fields | src/model.rs:174-183 | the printed date, hour and minute are the local minute that contains the local seconds |
| Utils.SearchFindsNearest | src/utils.rs:36-42 | a found folder is the first ancestor with a `.repo` directory; every earlier ancestor was scanned without an error and without a match |
| Utils.SearchDecidedByFirst | src/utils.rs:36-42 | ancestors scanned without a match do not affect the result |
| Utils.ReadErrorAborts | src/utils.rs:37-38 | a `read_dir` or entry error before any match is the result, and the search does not go on to the parents |
| Utils.NothingFound | src/utils.rs:44-47 | when no ancestor matches, the result is the "no .repo folder found" error |
| Utils.FindRepoBaseFolder | src/utils.rs:34-48 | the nested loop over ancestors and entries computes the search result, including a failing `current_dir` |
| Utils.FindRepoFolder | src/utils.rs:26-29 | the base folder joined with `.repo`, or the base folder's error |
| Utils.FindProjectFile | src/utils.rs:11-21 | `.repo/project.list` under the base folder if that is a file, else the "no project.list" error; base errors pass through |
| Model.RepoFrom | src/model.rs:130-137 | the description is the file name of the absolute path; both paths are kept |
| Model.RepoCommitFrom | src/model.rs:154-171 | summary, author and committer default to "None", the message to "" |
| Model.FoldPattern | src/model.rs:245-246 | a pattern, if given, is stored lower-cased |
| Model.NewClassifier | src/model.rs:242-248 | the classifier keeps the age and lower-cases both patterns once |
| Model.TruncDiv | src/model.rs:255 | `num_days` divides toward zero |
| Model.AsU32 | src/model.rs:255 | `as u32` is the value modulo 2^32; negative values wrap to large ones |
| Model.Classify | src/model.rs:252-269 | abort is exactly the failed age test; include is the age test and the message filter and the author filter |
| Model.IncludeExcludesAbort | src/model.rs:255-256 | an included commit never aborts |
| Model.AbortIgnoresFilters | src/model.rs:253-256 | abort depends only on the commit time |
| Model.EmailNeverConsulted | src/model.rs:263-266 | the author e-mail never changes the classification |
| Model.NoPatternsAgeDecides | src/model.rs:255-256 | without patterns, include is exactly not-abort |
| Model.AgeBoundary | src/model.rs:255 | a commit exactly `age` days old is kept; one more day aborts |
| Model.FutureCommitAborts | src/model.rs:254-256 | a commit a whole day or more in the future wraps through `as u32` and aborts, provided the age limit is below 2^32 minus the days ahead; with a larger limit (up to `u32::MAX`) the wrapped count can still pass |
| Model.SameDayIsAgeZero | src/model.rs:254-255 | a commit less than a day away, either way, is zero days old |
| Model.MessageMatchFolds | src/model.rs:258-261 | a message containing the given pattern passes the message filter |
| Model.Evaluated | src/model.rs:79-91 | the evaluated steps are a prefix of the walk; only the last can stop it; the walk is cut short only by a stop |
| Model.WalkStepsCharacterized | src/model.rs:78-91 | an unresolvable id among the evaluated steps discards the repository; otherwise it yields the included commits of the evaluated prefix |
| Model.StepsAfterAbortIgnored | src/model.rs:78-91 | once the loop reaches an aborting commit, whatever follows it (any ids, any offsets) is admitted and does not change the result |
| Model.UnresolvableDiscardsRepo | src/model.rs:80-83 | a `find_commit` failure before any abort makes the repository yield nothing, whatever follows it |
| Model.WalkYieldsKeptOnly | src/model.rs:84-87 | every commit a repository yields comes from a resolved, included step of its walk |
| Model.ScanRepository | src/model.rs:63-97 | the loop with `break` and `.ok()?` computes a repository's contribution; `Some` is never empty; only the commits the loop reaches need a valid offset |
| Model.InsertNewestFirst | src/model.rs:104 | inserting into a newest-first list keeps it sorted and adds exactly that commit |
| Model.SortNewestFirst | src/model.rs:104 | the sort is a permutation and non-increasing by timestamp |
| Model.Contributions | src/model.rs:46-98 | the `map` yields one result per repository |
| Model.ContributionsAt | src/model.rs:46-98 | result k is repository k's contribution |
| Model.ContributionsSlice | src/model.rs:46-98 | the results for a slice of the repositories are that slice of the results |
| Model.FlattenAppend | src/model.rs:100-102 | flattening a concatenation concatenates the flattenings |
| Model.FlattenMembers | src/model.rs:100-102 | a commit is in the flattened list iff it is in some repository's list |
| Model.FlattenSplit | src/model.rs:101 | the flattened list is the lists before k, then list k, then the lists after |
| Model.CollectedSplit | src/model.rs:46-102 | the merged list is the repositories before k, then k's commits, then those after |
| Model.FailedRepoContributesNothing | src/model.rs:63-76 | a repository that fails to open or walk contributes nothing, and the others are unaffected |
| Model.CollectedMembers | src/model.rs:46-102 | a commit is collected iff some repository contributes it |
| Model.CollectedStep | src/model.rs:46-102 | collecting from repository i on is i's contribution followed by the rest |
| Model.HistoryFrom | src/model.rs:19-109 | `repos` is returned unchanged; `commits` is a permutation of the concatenated per-repository results, sorted newest first |
| Model.DateTextSingleLine | src/model.rs:178-183 | the date and time part of `time_as_str` has no newline |
| Model.OffsetTextSingleLine | src/model.rs:184-185 | the offset part has no newline |
| Model.TimeAsStrSingleLine | src/model.rs:173-187 | `time_as_str` is one line, so it fills one list item |
| Model.ParseOffsetTextRoundTrip | src/model.rs:175-186 | the offset text determines the offset: parsing it gives back the minutes |
| Model.OffsetTextEast | src/model.rs:184-185 | +120 minutes prints as "+200" |
| Model.OffsetTextWestHalfHour | src/model.rs:184-185 | -330 minutes prints as "-5-30" (both fields carry the sign) |
| Model.OffsetTextWestUnderAnHour | src/model.rs:184-185 | -30 minutes prints as "+0-30" (truncated hours lose the sign) |
| Views.Identity | src/views/table_view.rs:472-476 | the identity row map of length n |
| Views.Range | src/views/list_view.rs:298 | the storage indices lo..hi, in order |
| Views.IdentityAppend | src/views/list_view.rs:296-301 | appending the next indices to the identity map gives the longer identity map |
| Views.IdentityIsPerm | src/views/table_view.rs:470-480 | the identity map is a permutation |
| Views.InsertRowAt | src/views/table_view.rs:569 | the new index lands at row `index` and the other rows keep their order |
| Views.InsertRowAtPerm | src/views/table_view.rs:565-572 | inserting the new last index at any row keeps a permutation |
| Views.Without | src/views/table_view.rs:586 | `retain` keeps exactly the references other than k |
| Views.DecrementAbove | src/views/table_view.rs:589-593 | references above k drop by one, the others stay |
| Views.RetainOthers | src/views/list_view.rs:327 | the `retain` loop computes `Without` |
| Views.RenumberAbove | src/views/list_view.rs:330-334 | the renumbering loop computes `DecrementAbove` |
| Views.WithoutDistinct | src/views/table_view.rs:586 | on distinct references, dropping k keeps them distinct and removes one entry iff k was there |
| Views.RemoveRefPerm | src/views/table_view.rs:586-597 | dropping and renumbering a removed item keeps a permutation of the smaller range |
| Views.RowOf | src/views/table_view.rs:527-533 | the first row holding item k, or none iff no row does |
| Views.RowOfPerm | src/views/table_view.rs:524-535 | in a permutation every item has a row, and only one |
| Views.SaturatingSub | src/views/table_view.rs:660 | `saturating_sub` |
| Views.FocusUp | src/views/table_view.rs:655-657 | moving up n rows saturates at row 0 |
| Views.FocusDown | src/views/table_view.rs:659-661 | moving down n rows clamps to the last row |
| Views.FocusMovesStayInRange | src/views/table_view.rs:655-661 | a focus in range stays in range |
| Views.FocusDownPullsStaleFocusBack | src/views/table_view.rs:659-661 | a focus past the end moves back to the last row |
| Views.FocusAfterRemove | src/views/table_view.rs:578-583 | removing the focused row's item moves the focus up one (not below 0); any other removal leaves it |
| Views.FocusAfterRemoveInRange | src/views/table_view.rs:576-601 | after a removal the focus is still a row iff it was not on the last row, or the last row held the removed item and was not row 0 |
| Views.RemoveStrandsFocus | src/views/table_view.rs:576-601 | rows [0, 1], focus 1, removing item 0 leaves one row with the focus on row 1 |
| TableViews.NewColumn | src/views/table_view.rs:976-986 | a new column is unselected and has width 0 |
| TableViews.IndexOf | src/views/table_view.rs:179 | `position`: the first equal item, or none iff there is none |
| TableViews.ColumnAt | src/views/table_view.rs:671-680 | the column under x, if any, is a valid index |
| TableViews.ColumnAtInterval | src/views/table_view.rs:671-680 | x is in column i iff it lies inside i's width after the earlier columns and separators |
| TableViews.RaiseFrom | src/views/table_view.rs:271-273 | indices at i and beyond go up by one |
| TableViews.LowerAbove | src/views/table_view.rs:249-251 | indices beyond i go down by one |
| TableViews.RaiseFromEnd | src/views/table_view.rs:243 | appending a column raises no index |
| TableViews.InsertColumnIndexed | src/views/table_view.rs:263-280 | insertion with the raised indices keeps `column_indicies[columns[k].column] == k` |
| TableViews.RemoveColumnIndexed | src/views/table_view.rs:247-256 | removal with the lowered indices keeps the index invariant |
| TableViews.SameIdsIndexed | src/views/table_view.rs:908-910 | changing column flags keeps the index invariant |
| TableViews.FirstSelected | src/views/table_view.rs:663-665 | the first selected column, or none if no column is selected |
| TableViews.SelectColumn | src/views/table_view.rs:908-910 | selecting a column keeps every column's id and title |
| TableViews.SelectColumnExclusive | src/views/table_view.rs:908-910 | after a header click exactly the clicked column is selected |
| TableViews.InsertKeepsOneSelected | src/views/table_view.rs:263-280 | inserting an unselected column keeps at most one header selected |
| TableViews.RemoveKeepsOneSelected | src/views/table_view.rs:247-256 | removing a column keeps at most one header selected |
| TableViews.TableKeyInRange | src/views/table_view.rs:750-779 | from a focus in range every key is safe and lands in range |
| TableViews.TableKeyEndsColumnSelect | src/views/table_view.rs:750-779 | every handled key ends column selection |
| TableViews.TableJumpKeys | src/views/table_view.rs:764-779 | Home goes to 0, End to the last row, PageUp/PageDown move 10 with clamping |
| TableViews.TableArrowsCancelColumnSelect | src/views/table_view.rs:750-763 | in column selection Up and Down only cancel it |
| TableViews.TableFocusChangeReported | src/views/table_view.rs:813-821 | a focus change is reported iff the table is non-empty and the focus moved; the callback gets the new row and its item |
| TableViews.TableView.constructor | src/views/table_view.rs:197-215 | an empty table, focus 0, no callbacks |
| TableViews.TableView.SetOnSubmit | src/views/table_view.rs:353-358 | installs the submit callback and changes nothing else |
| TableViews.TableView.SetOnSelect | src/views/table_view.rs:394-399 | installs the select callback and changes nothing else |
| TableViews.TableView.Row | src/views/table_view.rs:441-447 | the focus, unless the table is empty |
| TableViews.TableView.Item | src/views/table_view.rs:518-520 | the item of the focused row, if the focus is a row |
| TableViews.TableView.Clear | src/views/table_view.rs:423-428 | empties items and rows, focus 0, relayout |
| TableViews.TableView.SetSelectedRow | src/views/table_view.rs:450-453 | sets the focus to the row, unchecked |
| TableViews.TableView.SetSelectedItem | src/views/table_view.rs:524-535 | focuses the row of an in-range item, else leaves the focus alone |
| TableViews.TableView.SetItemsAndFocus | src/views/table_view.rs:470-480 | new items, the identity row map, relayout, focus on the location if in range |
| TableViews.TableView.SetItems | src/views/table_view.rs:466-468 | new items with the identity row map; focus 0 unless the list is empty |
| TableViews.TableView.SetItemsStable | src/views/table_view.rs:173-184 | the previously selected item stays focused at its first position in the new items, else focus 0 |
| TableViews.TableView.InsertItemAt | src/views/table_view.rs:565-572 | appends the item, puts its index at row `index`, length +1 |
| TableViews.TableView.InsertItem | src/views/table_view.rs:551-553 | appends the item at the last row |
| TableViews.TableView.FocusUp | src/views/table_view.rs:655-657 | focus moves up n, saturating |
| TableViews.TableView.FocusDown | src/views/table_view.rs:659-661 | focus moves down n, clamped |
| TableViews.TableView.RemoveItem | src/views/table_view.rs:576-601 | out of range: None and no change; in range: the item, deleted and renumbered, the focus as `FocusAfterRemove` says (not clamped) |
| TableViews.TableView.TakeItems | src/views/table_view.rs:604-609 | returns all items and leaves the table empty with focus 0 |
| TableViews.TableView.InsertColumn | src/views/table_view.rs:263-280 | inserts the column at i and raises the later indices |
| TableViews.TableView.AddColumn | src/views/table_view.rs:237-244 | appends the column with index `len` |
| TableViews.TableView.RemoveColumn | src/views/table_view.rs:247-256 | removes column i, drops its index and lowers the later ones |
| TableViews.TableView.Layout | src/views/table_view.rs:703-735 | every column gets its laid-out width, nothing else about the columns changes, the relayout is done, the invariant is kept |
| TableViews.TableView.ColumnForX | src/views/table_view.rs:671-680 | the loop over widths and separators computes `ColumnAt` |
| TableViews.TableView.OnHeaderClick | src/views/table_view.rs:897-916 | a click on a column makes it the only selected header, unless it already is while selecting; the event is ignored |
| TableViews.TableView.OnSubmitEvent | src/views/table_view.rs:828-836 | a submit with the focused row and its item when a callback is set, else ignored |
| TableViews.TableView.OnFocusChange | src/views/table_view.rs:645-653 | consumed, with the select callback for the focused row and item if set |
| TableViews.TableView.MoveFocus | src/views/table_view.rs:744-786 | the key arms move the focus and column selection as `TableKeyMove` says |
| TableViews.TableView.OnInnerKey | src/views/table_view.rs:741-822 | the key handling returns what `TableKeyResult` says and keeps the invariant |
| ListViews.Styled | src/views/list_view.rs:309-313 | every piece becomes one line in the given colour |
| ListViews.LinesOfSplitsAtNewlines | src/views/list_view.rs:303-313 | one item per newline-separated piece, one more than the newlines, none containing a newline, an empty last one after a trailing newline |
| ListViews.ListPageDownOnEmptyPanics | src/views/list_view.rs:381-383 | PageDown on an empty list underflows; every other key is safe there |
| ListViews.ListKeyInRange | src/views/list_view.rs:413-430 | from a focus in range every key is safe and lands in range |
| ListViews.ListArrowGuards | src/views/list_view.rs:413-418 | Up acts iff focus > 0, Down iff focus + 1 < len, each by one row |
| ListViews.ListFocusChangeReported | src/views/list_view.rs:460-466 | a focus change is reported iff the list is non-empty and the focus moved |
| ListViews.ListView.constructor | src/views/list_view.rs:76-89 | an empty list, focus 0, no callbacks |
| ListViews.ListView.SetOnSubmit | src/views/list_view.rs:126-131 | installs the submit callback |
| ListViews.ListView.SetOnSelect | src/views/list_view.rs:167-172 | installs the select callback |
| ListViews.ListView.Row | src/views/list_view.rs:214-220 | the focus, unless the list is empty |
| ListViews.ListView.Item | src/views/list_view.rs:261-267 | the item of the focused row, unless the list is empty |
| ListViews.ListView.Clear | src/views/list_view.rs:196-201 | empties items and rows, focus 0 |
| ListViews.ListView.SetSelectedRow | src/views/list_view.rs:223-226 | sets the focus to the row, unchecked |
| ListViews.ListView.SetSelectedItem | src/views/list_view.rs:271-282 | focuses the row of an in-range item, else leaves the focus alone |
| ListViews.ListView.InsertItem | src/views/list_view.rs:296-301 | appends the item and its index; an identity row map stays the identity |
| ListViews.ListView.InsertLines | src/views/list_view.rs:303-313 | the loop appends one item per piece of the split |
| ListViews.ListView.InsertString | src/views/list_view.rs:303-307 | appends the unstyled pieces |
| ListViews.ListView.InsertColorfulString | src/views/list_view.rs:309-313 | appends the pieces in the colour |
| ListViews.ListView.FocusUp | src/views/list_view.rs:377-379 | focus moves up n, saturating |
| ListViews.ListView.FocusDown | src/views/list_view.rs:381-383 | focus moves down n, clamped; needs a non-empty list |
| ListViews.ListView.RemoveItem | src/views/list_view.rs:317-343 | out of range: None and no change; in range: the item, deleted and renumbered, the focus as `FocusAfterRemove` says (not clamped) |
| ListViews.ListView.TakeItems | src/views/list_view.rs:346-351 | returns all items and leaves the list empty with focus 0 |
| ListViews.ListView.OnSubmitEvent | src/views/list_view.rs:469-477 | a submit with the focused row and its item when a callback is set, else ignored |
| ListViews.ListView.OnFocusChange | src/views/list_view.rs:367-375 | consumed, with the select callback for the focused row and item if set |
| ListViews.ListView.MoveFocus | src/views/list_view.rs:407-435 | the key arms move the focus as `ListKeyMove` says |
| ListViews.ListView.OnInnerKey | src/views/list_view.rs:404-467 | the key handling returns what `ListKeyResult` says and keeps the invariant |
| DiffViews.TrimmedIsShortPrefix | src/views/diff_view.rs:43-50 | the result is a prefix at most 2 shorter; unchanged iff no trailing '\n'; 2 shorter iff "\r\n" |
| DiffViews.TrimmedRemovesLineEnding | src/views/diff_view.rs:43-50 | a line followed by "\n" or "\r\n" comes back without it |
| DiffViews.TrimNewline | src/views/diff_view.rs:43-50 | the in-place pops compute `Trimmed` |
| DiffViews.TrimmedCons | src/views/diff_view.rs:43-50 | a leading sigil character is not touched by the trim |
| DiffViews.StyleOfClasses | src/views/diff_view.rs:52-61 | green iff '+', red iff '-', yellow iff 'F', magenta iff 'H', blue otherwise |
| DiffViews.DiffLineRows | src/views/diff_view.rs:32-39 | ' ', '+' and '-' are prepended; 'F' adds an empty yellow line before; others are kept |
| DiffViews.HeaderShape | src/views/diff_view.rs:22-28 | Repo, Id, Author, Commit, CommitDate, an empty line, the message lines, "---" |
| DiffViews.SingleLine | src/views/list_view.rs:309-313 | a string without a newline is one item |
| DiffViews.EndedLine | src/views/diff_view.rs:26 | a trailing "\n" adds an empty item |
| DiffViews.InsertHeader | src/views/diff_view.rs:20-28 | the header lines are inserted into a fresh list |
| DiffViews.InsertDiff | src/views/diff_view.rs:30-40 | one or two lines per diff line, in order |
| DiffViews.DiffView.Empty | src/views/diff_view.rs:12-16 | a diff view around a fresh, empty list |
| DiffViews.DiffView.SetCommit | src/views/diff_view.rs:19-41 | a fresh list holding exactly the header lines and then the diff lines |
| Reports.Named | src/report.rs:11-12 | the path components that remain are neither empty nor "." |
| Reports.LastIndexOf | src/report.rs:12 | the last position of the character, or none iff it does not occur |
| Reports.FileNameOfName | src/report.rs:11-12 | the file name of a plain name, alone or under a directory, is the name |
| Reports.ExtensionOfName | src/report.rs:12 | the extension is what follows the last '.' of the file name |
| Reports.HiddenFileHasNoExtension | src/report.rs:12-17 | a name that only starts with '.' has no extension |
| Reports.ReportFormat | src/report.rs:10-27 | CSV, ODS, XLSX iff the extension is exactly "csv", "ods", "xlsx"; every other case (also none) is the same error |
| Reports.ReportFormatCsv | src/report.rs:20 | "history.csv" selects CSV |
| Reports.ReportFormatOds | src/report.rs:21 | "out/history.ods" selects ODS |
| Reports.ReportFormatXlsx | src/report.rs:22 | "history.backup.xlsx" selects XLSX |
| Reports.ReportFormatRejected | src/report.rs:12-26 | "REPORT.CSV" and ".csv" are rejected |
| Reports.CommitRow | src/report.rs:154-158 | a commit row has 5 cells |
| Reports.CommitRows | src/report.rs:153-160 | one 5-cell row per commit |
| Reports.CommitRowsAt | src/report.rs:153-160 | row i is commit i's row |
| Reports.ReportRows | src/report.rs:146-160 | the header row first, then one row per commit, all 5 wide |
| Reports.ReportRowOfCommit | src/report.rs:154-158 | row i+1 is time_as_str, rel_path, author, summary, message of commit i |
| Reports.Place | src/report.rs:77-81 | writing cells along one row places cell k at column col + k and keeps the other cells |
| Reports.RunCells | src/report.rs:77-82 | a run of `add_cell` places the cells and moves the column past them |
| Reports.RunRows | src/report.rs:76-89 | a run of rows fills them at consecutive rows and returns to column 0 |
| Reports.FillKeys | src/report.rs:76-89 | after the rows, a cell exists iff it existed or lies in one of the rows |
| Reports.FillValues | src/report.rs:76-89 | after the rows, each cell holds its row's entry |
| Reports.SheetLayout | src/report.rs:76-89 | from (0, 0), cell k of row r lands at (r, k) and nothing lands elsewhere |
| Reports.ReportSheetLayout | src/report.rs:142-163 | the report occupies rows 0..=commits and columns 0..5 with the header and commit cells |
| Reports.Builder.Csv | src/report.rs:39-43 | a CSV builder with no calls logged |
| Reports.Builder.OdsXlsx | src/report.rs:66-73 | an empty sheet with the cursor at row 0, column 0 |
| Reports.Builder.AddCell | src/report.rs:77-82 | writes the cell at the cursor and moves one column right, or fails without change |
| Reports.Builder.FinishRow | src/report.rs:84-88 | moves to the next row at column 0, or fails without change |
| Reports.AddRow | src/report.rs:146-151 | five cells and a row end, stopping at the first error and returning it |
| Reports.AddCommitRow | src/report.rs:153-159 | a commit's row, stopping at the first error |
| Reports.RowsOpsStep | src/report.rs:153-160 | the calls for commits from i on are commit i's row then the rest |
| Reports.ReportOpsSplit | src/report.rs:146-160 | the calls are the header row's, then the commit rows' |
| Reports.RowFails | src/report.rs:153-160 | a failing row ends the whole build with its error |
| Reports.RowSucceeds | src/report.rs:153-160 | a row that succeeds is logged whole and the build goes on |
| Reports.ModelIntoSpreadsheet | src/report.rs:142-163 | the builder receives the report's calls up to the first failure, and the result is that failure or Ok |
| Reports.Generate | src/report.rs:10-27 | an unsupported path is the format error and builds nothing; otherwise the chosen builder receives the report |
| Reports.SheetBuildPlacesEveryCell | src/report.rs:92-94 | a sheet builder that received the whole report holds every header and commit cell at its (row, column) |

## Left out

- Parallelism and progress: the `par_iter` fan-out, the progress bars, the join thread and `current_thread_index()?` are left out. The map over repositories is sequential.
- git2 is given as input. `Repository::open`, revwalk creation, `push_head` and `find_commit` are replaced by a per-repository outcome. The walk order set by `set_sorting(TIME)` is assumed to be part of that input.
- `RepoCommit::diff` and `diff_to_vec` are given as input. They are git2 calls, so `set_commit` takes the commit's diff lines as a parameter.
- `chrono::Utc::now()` reads the wall clock, once per classified commit. `now` is a single parameter (seconds and nanoseconds), so the clock is frozen for the whole scan of every repository.
- `time_as_str` uses the calendar defined here instead of chrono's, which is not visible.
- The order of git2 `Time` values is assumed to be seconds first, then offset. `Time`'s `Ord` is in git2 and is not visible.
- Model.SortNewestFirst: `sort_unstable_by` leaves the order of equal timestamps unspecified. The model sorts by insertion. `HistoryFrom` promises only what the code promises: a permutation, non-increasing.
- `Classifier::new` lower-cases the patterns with Unicode `to_lowercase`, and `classify` uses `to_ascii_lowercase`. Both are ASCII lower-casing here. Strings are sequences of characters with no Unicode case mapping.
- Drawing code is UI and is left out: `draw*`, the width computation inside `layout_content` (which uses floating-point widths), the scroller, `inner_important_area`, `take_focus`, and the `enabled` flag with `disable`, `enable`, `set_enabled` and `is_enabled`.
- The mouse arms of `on_inner_event` are left out. The key arms are modelled.
- Callbacks are flags (`hasOnSubmit`, `hasOnSelect`). An event result names the callback it would run, with its row and item.
- These table-view members are left out: the builder-style wrappers (`column`, `items`, `selected_row`, `selected_item`, `on_submit`, `on_select`), `set_on_sort` and `on_sort`, `borrow_item*`, `len` and `is_empty`, and `TableColumn`'s `align`, `width`, `width_percent` and `color`. They are configuration or accessors with nothing to prove. A column keeps only its id, title, selected flag and width.
- TableViews.TableView.InsertColumn: it requires `i <= |columns|`, because the slice `&self.columns[i..]` panics past the end. Inserting a column id that is already in the table is allowed, as in the code. The index invariant is then claimed only when the id is new. `HashMap::insert` would overwrite the old entry.
- Utils.AsDateTime: it requires `ValidOffset`, because `FixedOffset::east` panics for an offset of a day or more. So do `AsDateTimeUtc`, `Model.Classify`, `Model.ScanRepository` and `Model.HistoryFrom` (through every commit the walk reaches: `StepsClassifiable` asks nothing of commits after the first abort or unresolvable id, which are never converted), `Model.TimeAsStr`, `DiffViews.DiffView.SetCommit` and `Reports.CommitRow`.
- Model.TimeAsStr: chrono's `timestamp(secs, 0)` panics for seconds outside its representable years (about ±262,000). The calendar here is unbounded, so `TimeAsStr` and `Model.ElapsedDays` return a value there instead.
- Model.RepoFrom: it requires a non-empty path, because `file_name().unwrap()` panics for a path with no last component. The `to_str().unwrap()` panic on non-UTF-8 names cannot occur, as names are character sequences.
- TableViews.TableView.InsertItemAt: it requires `index <= |rowsToItems|`, because `Vec::insert` panics past the end.
- TableViews.TableView.RemoveColumn: it requires `i < |columns|`, because the code indexes and removes column `i` and panics otherwise.
- TableViews.TableView.OnInnerKey: it requires `TableKeySafe`, which excludes the states where `item().unwrap()` panics in `on_submit_event` or `on_focus_change` (a focus past the row map).
- ListViews.ListView.RemoveItem: it requires the focus to be a row when `k` is in range, because `item()` indexes `rows_to_items[focus]` and panics otherwise.
- The focus is not kept within the rows. `remove_item` does not clamp it: removing an item shown above a focused last row leaves the focus one past the end (`Views.RemoveStrandsFocus`; `Views.FocusAfterRemoveInRange` says exactly when). `set_items` with an empty list also keeps a stale focus. The class invariants therefore say nothing about the focus, and the methods that read the focused row require it to be a row.
- TableViews.TableView.Layout: the widths `layout_content` computes with floating-point percentages are an input. Until `Layout` runs every column has width 0, so `ColumnForX` finds no column.
- ListViews.ListView.Item: it requires `focus < len` on a non-empty list. The code indexes `rows_to_items[focus]` and panics otherwise.
- ListViews.ListView.FocusDown: it requires a non-empty list, where the code underflows `len() - 1` (a panic in debug builds; a release build wraps). The key handling therefore excludes PageDown on an empty list, and `ListPageDownOnEmptyPanics` states that this is the only excluded key.
- Report I/O is left out: writing the ODS or XLSX book, the CSV writer's formatting and flush, and the `println!` lines. The CSV builder logs the cells it receives. When the CSV writer fails is an input.
- A failure to create the CSV file in `CommaSeperatedSpreadsheet::new` is not modelled separately. A writer that fails on its first call has the same effect on the result.
- The two builders are one class tagged with its sink instead of an implementation of the `SpreadSheetBuilder` trait.
- Paths in `generate` are split on '/' only, and `Path::extension` is modelled on those components. Platform-specific separators and prefixes are not modelled.
- The files src/config.rs, src/main.rs, src/ui.rs, src/styles.rs, src/views/main_view.rs, src/views/seperator_view.rs and src/views/mod.rs are not part of this model. They hold configuration I/O, CLI and UI wiring, and colour constants. Colours are named values here.
- The `Debug` impls of `MultiRepoHistory` and `RepoCommit` print and are left out.
