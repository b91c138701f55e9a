# hamster-gtk: entry-line decomposition, duration display, preferences and completion

This project models four small pieces of hamster-gtk, the GTK front end of the
hamster time tracker, in Dafny, and proves properties about them:

- **Raw fact decomposition** (`decompose_raw_fact_string`, module `RawFact`).
  An entry line such as `2016-01-01 12:00 foo@bar #t1 #t2,lorum_ipsum` is split
  into up to five optional segments: time information, activity, `@category`,
  ` #tags` and `,description`. The result is all of them or nothing. The
  behaviour is the one fixed by the decomposition table in
  `tests/test_helpers.py`. It is written as a scanner (`Decompose`) next to a
  declarative grammar (`IsDecomposition`), and a theorem says the two agree on
  every line. The scanner tries the prefixes that may be a time information,
  longest first, and then scans the rest of the line once. The rows of the
  table are lemmas in module `RawFactExamples`. Short rows are stated on their
  literal input. Long rows are stated for every input of their shape.
- **Duration display** (`get_delta_string`, module `Duration`). A duration in
  whole minutes becomes `N min` below an hour, or `HH:MM` from an hour on. It
  is proved against a reader that parses the display form back.
- **Preferences dialog** (`PreferencesDialog`, module `Preferences`). The
  dialog keeps its notebook pages as object state. Each page is a title plus
  the current value of each of its config keys. `get_config` folds the pages
  into one mapping, later pages overwriting earlier ones. `_set_config`
  refuses an empty mapping and otherwise hands the whole mapping to every page.
  The constructor lays out the three pages and applies the initial mapping
  only when it is non-empty.
- **Raw fact completion** (`RawFactCompletion`, module `Completion`).
  `_get_activities` lists the activities of the known facts, once each, in
  the order of their first occurrence. `_populate_stores` refills every
  per-segment list store with one row per activity.

Module `Wrappers` holds the `Option` and `Outcome` types; module `Chars` holds
the digit class shared by the parser and the duration display.

## Model

| member | source | states |
|---|---|---|
| RawFact.TimeInfoLength | tests/test_helpers.py:26-46 | the time information is the longest prefix that is a date, a time or a date with time, or a range of two such points joined by exactly ` - `, always followed by a space; no longer prefix qualifies |
| RawFact.ParseTail | tests/test_helpers.py:102-113 | a tail is empty, a description from the first comma to the end, or ` #` tags running to the first comma followed by an optional description; on success the pieces join back to the input |
| RawFact.ParseCategory | tests/test_helpers.py:94-101 | an optional `@category` with a non-empty name, then a tail; on success the pieces join back to the input |
| RawFact.ParseBody | tests/test_helpers.py:87-113 | an optional activity, then a category and a tail; on success the pieces are well formed and join back to the input |
| RawFact.Decompose | tests/test_helpers.py:128-134 | whenever a result is returned, its present segments are well formed, concatenate in order to exactly the input line, and its time information is the longest one the line starts with |
| RawFact.DecomposeCharacterized | tests/test_helpers.py:26-134 | the scanner returns `f` if and only if `f` is a decomposition of the line under the grammar |
| RawFact.DecompositionUnique | tests/test_helpers.py:128-134 | a line has at most one decomposition, so the result is never a choice between partial answers |
| RawFact.DecomposeNoneIff | tests/test_helpers.py:133-134 | the scanner returns None exactly when no segmentation of the line satisfies the grammar |
| RawFact.GluedMarkerFails | tests/test_helpers.py:78-79 | after the time information, a `#` not preceded by a space, or a `:`, ahead of every other marker fails the whole line |
| RawFactExamples.DateTimeInfo | tests/test_helpers.py:28-30 | a date, a space, a time and a space is a time information |
| RawFactExamples.TimeRangeInfo | tests/test_helpers.py:44-46 | two times joined by ` - ` and followed by a space are a time information |
| RawFactExamples.TimeToDateTimeInfo | tests/test_helpers.py:41-43 | a time, ` - `, a date with time and a space are a time information |
| RawFactExamples.DateTimeRangeInfo | tests/test_helpers.py:38-40 | two dates with times joined by ` - ` and followed by a space are a time information |
| RawFactExamples.DateTimeRow | tests/test_helpers.py:28-30 | `2016-02-01 12:00 ` is all time information |
| RawFactExamples.DateRow | tests/test_helpers.py:31-33 | `2016-02-01 ` is all time information |
| RawFactExamples.TimeRow | tests/test_helpers.py:34-36 | `12:00 ` is all time information |
| RawFactExamples.TimeRangeRow | tests/test_helpers.py:44-46 | `12:00 - 15:00 ` is all time information |
| RawFactExamples.TimeInfoOnlyShape | tests/test_helpers.py:38-43 | a line that is a time information alone, such as a range of two dates with times or a time to a date with time, decomposes into that time information only |
| RawFactExamples.TimeAndDescriptionShape | tests/test_helpers.py:47-50 | a time information followed by `,text` decomposes into those two segments only |
| RawFactExamples.FullShape | tests/test_helpers.py:51-71 | time information, activity, category, tags and description, each of its form, decompose into exactly those five segments |
| RawFactExamples.ActivityAndDescriptionShape | tests/test_helpers.py:72-76 | the description starts at the first comma after the activity and keeps every later comma |
| RawFactExamples.GluedMarkerShape | tests/test_helpers.py:78-79 | an activity with a `#` glued to it, or a `:` after it, fails the whole line |
| RawFactExamples.SpacedHashShape | tests/test_helpers.py:80-86 | a ` #` after the activity opens the tags, which swallow a following `@`, and there is no category |
| RawFactExamples.ActivityAndTagRow | tests/test_helpers.py:87-89 | `a #b` has the tags ` #b` (and the activity `a`) |
| RawFactExamples.TagWithAtRow | tests/test_helpers.py:90-93 | `a #b@c` has the activity `a` and the tags ` #b@c` |
| RawFactExamples.ActivityRow | tests/test_helpers.py:94 | a plain word is an activity |
| RawFactExamples.ActivityAndCategoryRow | tests/test_helpers.py:95-98 | `foo@bar` is the activity `foo` and the category `@bar` |
| RawFactExamples.CategoryRow | tests/test_helpers.py:99-101 | `@bar` alone is a category |
| RawFactExamples.TagRow | tests/test_helpers.py:102-104 | ` #t1` alone is tags |
| RawFactExamples.TagsRow | tests/test_helpers.py:105-107 | ` #t1 #t2` is one tags segment |
| RawFactExamples.HashesInTagsRow | tests/test_helpers.py:108-110 | ` ##t1 #t#2` is one tags segment, extra `#` included |
| RawFactExamples.DescriptionRow | tests/test_helpers.py:111-113 | `,lorum_ipsum` alone is a description |
| RawFactExamples.DanglingDashShape | tests/test_helpers.py:114-121 | a dash that no time point follows is not a range: the time information stops at the first point and the activity starts with the dash |
| RawFactExamples.GluedRangeShape | tests/test_helpers.py:122-126 | a range whose dash is glued to its time points fails the whole line |
| Duration.Decimal | tests/test_helpers.py:138-140 | minutes are rendered as unpadded digits: a leading zero only for zero, one digit below ten, at most two below a hundred |
| Duration.TwoDigits | tests/test_helpers.py:141-142 | the hour and minute fields are at least two digits, exactly two below a hundred |
| Duration.DeltaString | tests/test_helpers.py:137-147 | under an hour the display is the unpadded count of minutes (one or two digits, no leading zero except for zero) followed by ` min`; from an hour on it is an hour field worth minutes / 60, a colon and a two-digit minute field worth minutes % 60, five characters exactly below a hundred hours |
| Duration.DeltaRoundTrip | tests/test_helpers.py:137-147 | reading a rendered duration back gives the same number of minutes; the reader accepts a minute field only below 60 |
| Duration.DeltaStringInjective | tests/test_helpers.py:137-147 | two different durations never render alike |
| Duration.ShortDeltaExamples | tests/test_helpers.py:138-140 | 1, 30 and 59 minutes render as `1 min`, `30 min` and `59 min` |
| Duration.LongDeltaExamples | tests/test_helpers.py:141-142 | 60 and 300 minutes render as `01:00` and `05:00` |
| Preferences.SetAll | hamster_gtk/preferences/preferences_dialog.py:132-133 | every page, in page order, receives the same complete mapping, and the number of pages is unchanged |
| Preferences.LayoutPage | hamster_gtk/preferences/preferences_dialog.py:65-84 | a page shows exactly the keys listed for it, under its title |
| Preferences.Layout | hamster_gtk/preferences/preferences_dialog.py:65-84 | the dialog has three pages, titled Tracking, Storage and Miscellaneous in that order |
| Preferences.PreferencesDialog.constructor | hamster_gtk/preferences/preferences_dialog.py:65-93 | the pages are the layout, with the initial mapping applied to every page when it is present and non-empty, and left as laid out otherwise |
| Preferences.PreferencesDialog.GetConfig | hamster_gtk/preferences/preferences_dialog.py:109-114 | the result is the pages' values folded page by page, later pages overwriting earlier ones |
| Preferences.PreferencesDialog.SetConfig | hamster_gtk/preferences/preferences_dialog.py:129-133 | an empty mapping is refused with an error and no page changes; otherwise every page receives the mapping |
| Preferences.MergedLastWins | hamster_gtk/preferences/preferences_dialog.py:109-114 | a key's merged value is the one on the last page that shows it |
| Preferences.MergedKeys | hamster_gtk/preferences/preferences_dialog.py:109-114 | a key is in the merged configuration if and only if some page shows it |
| Preferences.MergedOfEmptyPages | hamster_gtk/preferences/preferences_dialog.py:109-114 | pages that all show nothing merge to an empty configuration |
| Preferences.MergedKeepsEveryPage | hamster_gtk/preferences/preferences_dialog.py:109-114 | when no key is on two pages, every page's value survives the merge |
| Preferences.ThreePagesDisjoint | hamster_gtk/preferences/preferences_dialog.py:65-84 | three pages whose key sets do not meet have no key in common |
| Preferences.LayoutKeys | hamster_gtk/preferences/preferences_dialog.py:65-84 | the pages show the Tracking, Storage and Miscellaneous keys respectively |
| Preferences.LayoutDisjoint | hamster_gtk/preferences/preferences_dialog.py:65-84 | no key is on two pages, and the merged configuration has exactly the eight config keys |
| Preferences.SetThenGet | hamster_gtk/preferences/preferences_dialog.py:101-133 | after setting a mapping, reading the configuration gives the mapping's value for every shown key it names, the old value for every other shown key, and the same set of keys |
| Completion.OrderedSet | tests/misc/widgets/test_raw_fact_completion.py:55 | the ordered set holds exactly the elements of the list, with no duplicates, and is no longer than the list |
| Completion.GetActivities | tests/misc/widgets/test_raw_fact_completion.py:47-55 | an activity is listed if and only if some fact has it; no activity is listed twice; the list is no longer than the facts |
| Completion.OrderedSetKeepsFirstOrder | tests/misc/widgets/test_raw_fact_completion.py:51-55 | the listed elements appear in the order of their first occurrence |
| Completion.OrderedSetOfDistinct | tests/misc/widgets/test_raw_fact_completion.py:55 | a list without duplicates is its own ordered set |
| Completion.DistinctActivities | tests/misc/widgets/test_raw_fact_completion.py:36-44 | facts with pairwise distinct activities give one row per fact, in fact order |
| Completion.RepeatedFactExample | tests/misc/widgets/test_raw_fact_completion.py:51-55 | facts `[f1, f2, f1]` give `[f1.activity, f2.activity]` |
| Completion.RawFactCompletion.PopulateStores | tests/misc/widgets/test_raw_fact_completion.py:36-44 | the set of segment stores is unchanged and every store holds exactly the completion's activity list |

## Left out

- The implementation of `decompose_raw_fact_string` is not part of this model. Its behaviour is taken from the decomposition table, and the model fixes the segments a row leaves unlisted. For example, `a #b` also gets the activity `a`.
- The regular expression engine and its backtracking are not modelled. The scanner takes the longest time information the line starts with. It then splits the rest at the markers `@`, `#`, `,` and `:`, with a ` #` opening the tags.
- Time points are checked by the shape of their digits only. Hours, minutes, months and days are not range-checked.
- RawFactExamples: the long table rows are proved for every input of their shape, not on their literal strings; each literal row is one instance of its shape lemma.
- `get_delta_string` takes a `datetime.timedelta`; the model takes whole minutes as a natural number, so seconds and negative durations are not modelled.
- Widget construction is user interface and is not modelled. This covers the notebook, the labels, the buttons, `set_transient_for`, `show_all` and the widgets' value types.
- Translated labels (`gettext`) are not modelled.
- The backend lists are not modelled. This covers `hamster_lib.REGISTERED_BACKENDS` and the database engine choices.
- A page's values are a mapping from config key to an abstract value type. The grid's `get_values` and `set_values` are not part of this model. `set_values` is taken to set each of the page's own keys that the mapping names and to leave the page's other keys alone.
- The pages' display order within a page (the ordered dictionaries) is not modelled; only the order of the pages is.
- The fact store's `get_all` becomes the `facts` parameter. The segment names of the completion stores are the constructor's parameter. Each store row is the activity itself rather than its display text.
- The activity values are compared by value, as the test's ordered set of activities does.
