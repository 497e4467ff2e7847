# WhatsApp archive splitter, modelled in Dafny

`split_whatsapp_archives.py` takes an exported WhatsApp chat folder
(`WhatsApp Chat - <contact>/` holding `_chat.txt` and media files) and splits
it into one archive per year. This project models what `process_chat`
computes:

- Each transcript line is classified by its leading `[date, …` token. The
  loop then threads a current year through the lines and appends every kept
  line to the list of its year (`year_groups`).
- Media files are bucketed by the year in their names (`media_by_year`).
- The years processed are the sorted union of both key sets.
- Each year yields a bundle: the text of its `_chat.txt`, the media copied
  beside it, and the archive name `WhatsApp Chat - <contact> - <year>.zip`.

Modules, one per file:

- `PythonText` (`python_text.dfy`): the Python string behaviour the script
  relies on. It covers `strip()`, `rstrip('\n')`, splitting on a character
  class, `int()` on decimal text and `str()` of a natural number, with
  their specifications and round trips.
- `YearParsing` (`year_parsing.dfy`): `extract_year_from_date` and
  `extract_year_from_filename`. A `ValueError` from `int()` is a result,
  not a precondition.
- `ChatGrouping` (`chat_grouping.dfy`): the grouping loop. Each line is
  classified on its own (`Classify`). The loop is specified twice:
  - as a left fold of one step per line (`GroupPrefix`);
  - by a per-line reference definition: a dated line goes to its year, a
    continuation to the year of the last dated line before it, every other
    line nowhere (`FateOf`, `Placed`, `ReferenceGroups`).

  The imperative loop `GroupLinesByYear` is proved against both.
- `MediaBuckets` (`media_buckets.dfy`): the media loop, proved against a
  reference definition of the buckets, and `sorted(set(...) | set(...))`.
- `ArchiveOutput` (`archive_output.dfy`): `os.path.basename`, the contact
  name, `os.path.join` and the archive name. It also holds the chat-file
  text and the copy loop with its `media_count`, the per-year loop, and
  `ProcessChat`. `ProcessChat` is proved to produce `ExpectedOutcome`.

The file system is not modelled. It is replaced by inputs:

- The chat file is an `Option<seq<string>>` of what `readlines()` returns;
  `None` means `_chat.txt` does not exist.
- The folder listing is a sequence of names.
- `os.path.exists` on a media file is membership in a set of names.

The outcome is `ChatFileMissing`, `Crashed(literal)` (a `ValueError`
escaping from `int()`), or `Written(bundles)` with one `Bundle` per year.

Not every transcript line ends up in a year group. The code drops two
kinds of line:

- every line before the first dated line;
- a line that starts with `[` and has a `[…,` prefix whose date token gives
  no year, or the year 0. The `else` branch at lines 64-65 only prints.

`ChatGrouping.ZeroYearDropped` exhibits the second case.
`ChatGrouping.GroupedLineCount` states the actual relation: the groups hold
exactly the kept lines, at most the number of input lines.

## Model

| member | source | states |
|---|---|---|
| `PythonText.StripTrims` | split_whatsapp_archives.py:57 | `strip()` leaves a result that is empty or starts and ends with a non-whitespace character |
| `PythonText.LStripRemovesLeadingSpace` | split_whatsapp_archives.py:57 | the leading half of `strip()` removes exactly the longest all-whitespace prefix |
| `PythonText.RStripRemovesTrailingSpace` | split_whatsapp_archives.py:57 | the trailing half of `strip()` removes exactly the longest all-whitespace suffix |
| `PythonText.StripWithoutSpace` | split_whatsapp_archives.py:57 | `strip()` leaves text without whitespace unchanged |
| `PythonText.RStripNewlinesRemovesFeeds` | split_whatsapp_archives.py:52 | `rstrip('\n')` removes exactly the trailing line feeds and nothing else |
| `PythonText.IndexOfFirst` | split_whatsapp_archives.py:55 | the comma search finds the first comma, or reports that there is none |
| `PythonText.Split` | split_whatsapp_archives.py:12 | a split has one more field than the text has separators, and no field holds a separator |
| `PythonText.JoinSplit` | split_whatsapp_archives.py:12 | splitting fields joined by a separator gives back the fields when none holds a separator |
| `PythonText.SplitJoin` | split_whatsapp_archives.py:21 | joining the fields of a split with the same separator gives back the text |
| `PythonText.PyInt` | split_whatsapp_archives.py:17 | `int()` succeeds exactly when the stripped text is a non-empty run of decimal digits and the text holds none of U+001C..U+001F, which `strip()` removes but `int()` rejects |
| `PythonText.RStripNewlinesAppend` | split_whatsapp_archives.py:52 | `rstrip('\n')` of a line only touches the text after its last character that is not a line feed |
| `PythonText.ValueNatToString` | split_whatsapp_archives.py:123 | `str(int(s)) == s` for digit text without a leading zero |
| `PythonText.PyIntOfDigits` | split_whatsapp_archives.py:17 | `int()` of a non-empty run of bare decimal digits is their value |
| `PythonText.PyIntOfNatToString` | split_whatsapp_archives.py:17 | `int(str(n)) == n` |
| `PythonText.NatToStringValue` | split_whatsapp_archives.py:123 | the digits `str(n)` writes have the value `n` |
| `PythonText.NatToStringInjective` | split_whatsapp_archives.py:123 | different years are written as different strings |
| `PythonText.DigitsValueAppend` | split_whatsapp_archives.py:16 | prefixing digits scales the value: `"20" + dd` is 2000 + dd |
| `YearParsing.WidenYear` | split_whatsapp_archives.py:15-17 | a two-digit field `dd` converts to 2000 + dd; a field of any other length converts, or fails to, exactly as it would unwidened |
| `YearParsing.DateYearNeedsThreeFields` | split_whatsapp_archives.py:12-18 | there is no year exactly when the token does not split into three fields; a ValueError carries the widened third field, which `int()` rejects |
| `YearParsing.TwoDigitYear` | split_whatsapp_archives.py:14-17 | a two-digit third field `dd` gives 2000 + dd, with no century cut-off |
| `YearParsing.OtherLengthYear` | split_whatsapp_archives.py:14-17 | a digit field of any other length is converted as it stands |
| `YearParsing.EmptyYearFieldRaises` | split_whatsapp_archives.py:17 | an empty third field makes `int('')` raise |
| `YearParsing.InfoSeparatorYearRaises` | split_whatsapp_archives.py:12-17 | a third field holding one of U+001C..U+001F raises, even next to the digits where `strip()` would have removed it |
| `YearParsing.DateRoundTrip` | split_whatsapp_archives.py:10-18 | a date written as digit fields joined by `/` gives back its year, widened to 20yy for two digits |
| `YearParsing.DigitTokenUnstripped` | split_whatsapp_archives.py:57 | a date token of digits and slashes holds only digits and slashes, and `strip()` leaves it unchanged |
| `YearParsing.DateExample2014` | split_whatsapp_archives.py:11 | `2/23/14` gives 2014 |
| `YearParsing.DateExample2099` | split_whatsapp_archives.py:16 | `1/1/99` gives 2099, not 1999 |
| `YearParsing.ExtractYearFromFilename` | split_whatsapp_archives.py:20-26 | a year is found exactly when there are at least three `-` fields and the third is four ASCII digits; the year is below 10000 |
| `YearParsing.FilenameRoundTrip` | split_whatsapp_archives.py:20-26 | a name whose third `-` field is a four-digit year gives that year, whatever the other fields hold |
| `YearParsing.FilenameWithoutYear` | split_whatsapp_archives.py:22-26 | fewer than three fields, or a third field that is not four digits, gives no year |
| `YearParsing.FilenameYearWrittenBack` | split_whatsapp_archives.py:24-25 | `str()` of a media file's year gives back the name's year field exactly when the field has no leading zero |
| `YearParsing.FilenameZeroYear` | split_whatsapp_archives.py:24-25 | a `0000` field gives the year 0 |
| `ChatGrouping.CleanRemovesMarks` | split_whatsapp_archives.py:53 | cleaning never lengthens a line and leaves none of U+200E, U+200F, U+202F |
| `ChatGrouping.CleanBehindMarks` | split_whatsapp_archives.py:53 | leading directional marks disappear in cleaning and mark-free text behind them is kept |
| `ChatGrouping.OrigUnchanged` | split_whatsapp_archives.py:52 | a line without a final line feed is stored as it is |
| `ChatGrouping.DateMatchIsRegexMatch` | split_whatsapp_archives.py:55 | `\[([^,]+),` matches exactly when the line starts with `[` and its first comma is at index 2 or later; the group is the comma-free text between them |
| `ChatGrouping.DateMatchToken` | split_whatsapp_archives.py:55 | `[token,rest` with a non-empty comma-free token matches with group `token` |
| `ChatGrouping.DateKind` | split_whatsapp_archives.py:58-65 | a line is dated exactly when the token gives a non-zero year (`if year:`), with that year, and raises exactly when `int()` does, with the rejected field |
| `ChatGrouping.Classify` | split_whatsapp_archives.py:59-60 | a dated line never carries the year 0 |
| `ChatGrouping.ReadByDateMatch` | split_whatsapp_archives.py:52-58 | the `startswith('[')` test adds nothing to the match: a line is dated by the year of its stripped group when its cleaned text matches, is a continuation otherwise, and is stored without its line feeds |
| `ChatGrouping.BracketedLine` | split_whatsapp_archives.py:52-58 | a line of directional marks, `[`, a token, `,` and any rest (U+202F and line feeds included) is classified by the year of the stripped token |
| `ChatGrouping.UnbracketedLine` | split_whatsapp_archives.py:70-72 | a line whose cleaned text does not start with `[` is a continuation |
| `ChatGrouping.ZeroYearDropped` | split_whatsapp_archives.py:59-65 | a matched line whose token gives the year 0 is dropped wherever it occurs, whatever follows its first comma |
| `ChatGrouping.DatedMessageLine` | split_whatsapp_archives.py:54-63 | a message line `[d/m/y, …` is dated in `y`, widened to 20yy for two digits, whatever follows its first comma |
| `ChatGrouping.DigitTokenPlain` | split_whatsapp_archives.py:55 | a date token of digits and slashes holds no comma and no mark |
| `ChatGrouping.ReadAllIndex` | split_whatsapp_archives.py:51-53 | each line is classified on its own and stored as `rstrip('\n')` of the raw line |
| `ChatGrouping.ReadAllPrefix` | split_whatsapp_archives.py:51 | reading a prefix of the lines gives the prefix of the reading |
| `ChatGrouping.Step` | split_whatsapp_archives.py:59-72 | one iteration keeps `current_year`, once set, a key of `year_groups` |
| `ChatGrouping.GroupPrefix` | split_whatsapp_archives.py:49-72 | after any prefix of the lines, `current_year`, once set, is a key of `year_groups` |
| `ChatGrouping.TranscriptExample` | split_whatsapp_archives.py:49-72 | dated, continuation, dated lines of two years give `{a: [l1, l2], b: [l3]}`, with `b` current |
| `ChatGrouping.GroupingMatchesReference` | split_whatsapp_archives.py:49-72 | the loop as a fold equals the per-line reference definition: the first ValueError, or each dated year's placed lines with the last dated year current |
| `ChatGrouping.ReferenceGroupsSnoc` | split_whatsapp_archives.py:59-72 | one more line leaves the groups unchanged if it is dropped, and otherwise appends it to the group of its year alone |
| `ChatGrouping.LastYearIsChatYear` | split_whatsapp_archives.py:60-63 | the current year is always the year of some group |
| `ChatGrouping.PlacedOnlyInChatYears` | split_whatsapp_archives.py:59-72 | no line is placed in a year that no dated line opened |
| `ChatGrouping.ChatYearsAreDatedYears` | split_whatsapp_archives.py:59-63 | a year has a group exactly when some line is dated in that year |
| `ChatGrouping.LastYearIsLastDated` | split_whatsapp_archives.py:60 | the current year is the year of the last dated line |
| `ChatGrouping.NoLastYearWithoutDated` | split_whatsapp_archives.py:50 | there is no current year exactly when no line so far is dated |
| `ChatGrouping.DroppedBeforeFirstDated` | split_whatsapp_archives.py:68-72 | every line before the first dated line is dropped |
| `ChatGrouping.ContinuationJoinsLastDated` | split_whatsapp_archives.py:66-72 | a continuation joins the year of the last dated line before it |
| `ChatGrouping.GroupsStartDated` | split_whatsapp_archives.py:59-63 | every group is non-empty and starts with the first line dated in its year |
| `ChatGrouping.GroupedLineCount` | split_whatsapp_archives.py:51-72 | the groups together hold exactly the kept lines, each once, so never more lines than the input has |
| `ChatGrouping.RaiseIsFirstRaise` | split_whatsapp_archives.py:58 | the loop raises exactly when some line's year field makes `int()` fail, with the field of the first such line |
| `ChatGrouping.RaisePersists` | split_whatsapp_archives.py:58 | once a ValueError is raised, later lines change nothing |
| `ChatGrouping.PrefixStep` | split_whatsapp_archives.py:51-72 | the state after `i + 1` lines is one step from the state after `i` |
| `ChatGrouping.RaiseEndsGrouping` | split_whatsapp_archives.py:58 | a ValueError on line `i` is the first raise of the whole transcript |
| `ChatGrouping.LoopEnd` | split_whatsapp_archives.py:49-72 | a loop that ends without raising leaves the reference groups and no raise anywhere |
| `ChatGrouping.GroupLine` | split_whatsapp_archives.py:52-72 | the loop body on one line is one step of the fold |
| `ChatGrouping.GroupLinesByYear` | split_whatsapp_archives.py:49-72 | the loop raises the first line's ValueError when there is one, and otherwise ends with the reference groups |
| `MediaBuckets.BucketMedia` | split_whatsapp_archives.py:81-88 | the media loop leaves one bucket per media year holding that year's files in listing order |
| `MediaBuckets.BucketsSnoc` | split_whatsapp_archives.py:82-88 | one more file is appended to the bucket of its year, which is created if missing, or is skipped |
| `MediaBuckets.BucketOfBuckets` | split_whatsapp_archives.py:111-112 | looking a year up in the buckets gives that year's files, or none when it has no bucket |
| `MediaBuckets.InBucketIff` | split_whatsapp_archives.py:83-88 | a file is in the bucket of `y` exactly when it is listed, is not `_chat.txt`, `files.txt` or `output.txt`, and its name carries the non-zero year `y` |
| `MediaBuckets.MediaYearsIff` | split_whatsapp_archives.py:85-87 | a year has a bucket exactly when some listed file is filed under it |
| `MediaBuckets.NoMediaOutsideMediaYears` | split_whatsapp_archives.py:85-88 | no file is filed under a year without a bucket |
| `MediaBuckets.OneBucketPerFile` | split_whatsapp_archives.py:84-88 | no file is in two buckets |
| `MediaBuckets.BucketsNonEmpty` | split_whatsapp_archives.py:86-88 | every bucket holds at least one file |
| `MediaBuckets.NonMediaHaveNoYear` | split_whatsapp_archives.py:83 | the excluded names carry no year anyway |
| `MediaBuckets.Least` | split_whatsapp_archives.py:93 | the least element of a non-empty set of years |
| `MediaBuckets.SortedYears` | split_whatsapp_archives.py:93 | `sorted` of a set: strictly ascending, the same elements, as many as the set has |
| `MediaBuckets.YearsToProcess` | split_whatsapp_archives.py:93 | the years are strictly ascending and are exactly the chat years and the media years |
| `ArchiveOutput.BasenameIsLastComponent` | split_whatsapp_archives.py:30 | the base name is the suffix after the last `/`, or the whole path |
| `ArchiveOutput.BasenameAppend` | split_whatsapp_archives.py:30 | appending text without `/` extends the base name by that text |
| `ArchiveOutput.ContactName` | split_whatsapp_archives.py:31-32 | the contact is the suffix of the folder name that is 16 characters shorter than it, and empty for a name of 16 characters or fewer |
| `ArchiveOutput.ContactIgnoresPrefixText` | split_whatsapp_archives.py:32 | the first 16 characters are cut whether or not they read `WhatsApp Chat - ` |
| `ArchiveOutput.ArchiveNameOfExportFolder` | split_whatsapp_archives.py:30-32 | the folder `…/WhatsApp Chat - <c>` gives the contact `c` and archives named `WhatsApp Chat - <c> - <year>.zip` |
| `ArchiveOutput.TrailingSlashLosesContact` | split_whatsapp_archives.py:30-32 | an input path ending in `/` gives an empty contact and archives named `WhatsApp Chat -  - <year>.zip` |
| `ArchiveOutput.ZipFileNameInjective` | split_whatsapp_archives.py:123 | archive names of one contact differ between years |
| `ArchiveOutput.PathJoinInjective` | split_whatsapp_archives.py:123 | joining one folder with two different relative names gives different paths |
| `ArchiveOutput.ZipPathInjective` | split_whatsapp_archives.py:123 | two years never share an archive path |
| `ArchiveOutput.BobArchive2014` | split_whatsapp_archives.py:123 | the 2014 archive of `Bob` is `WhatsApp Chat - Bob - 2014.zip` |
| `ArchiveOutput.ChatContentAppend` | split_whatsapp_archives.py:105-106 | the chat text of two runs of lines is the two texts concatenated |
| `ArchiveOutput.ChatContentIsJoin` | split_whatsapp_archives.py:105-106 | the chat text is the lines and one empty field joined by line feeds |
| `ArchiveOutput.ChatContentLines` | split_whatsapp_archives.py:104-106 | splitting the chat text at line feeds gives the lines back, then one empty field |
| `ArchiveOutput.WriteChat` | split_whatsapp_archives.py:104-106 | the write loop produces the chat text of the year's lines |
| `ArchiveOutput.CopyMedia` | split_whatsapp_archives.py:110-120 | the copy loop copies the existing files of the bucket in order, and `media_count` is their number |
| `ArchiveOutput.ExistingIff` | split_whatsapp_archives.py:112-117 | a file is copied exactly when it is in the bucket and exists |
| `ArchiveOutput.ExistingCount` | split_whatsapp_archives.py:110-120 | at most the whole bucket is copied, and all of it when every file exists |
| `ArchiveOutput.BundlesFor` | split_whatsapp_archives.py:95 | one bundle per year processed |
| `ArchiveOutput.ProcessYear` | split_whatsapp_archives.py:96-123 | one iteration yields the temp directory, the archive path, the chat text if the year has lines, and the copied media |
| `ArchiveOutput.ProcessYears` | split_whatsapp_archives.py:95-132 | the per-year loop yields the bundles of the years in order |
| `ArchiveOutput.ProcessChat` | split_whatsapp_archives.py:28-132 | `process_chat` stops without output when `_chat.txt` is missing, ends with the first ValueError, or yields the bundles of all years |
| `ArchiveOutput.BundleYears` | split_whatsapp_archives.py:95 | a year has a bundle exactly when it is processed |
| `ArchiveOutput.ChatYearsOfLines` | split_whatsapp_archives.py:59-63 | the chat years are the years of the dated lines |
| `ArchiveOutput.ArchivesAscending` | split_whatsapp_archives.py:93-95 | archives come in strictly increasing year order |
| `ArchiveOutput.BundlePathsDistinct` | split_whatsapp_archives.py:95-123 | bundles of strictly ascending years have pairwise distinct archive paths |
| `ArchiveOutput.ArchivePathsDistinct` | split_whatsapp_archives.py:123 | no two archives share a path |
| `ArchiveOutput.ArchiveYears` | split_whatsapp_archives.py:93 | there is an archive for `y` exactly when a chat line is dated `y` or a listed media file is filed under `y` |
| `ArchiveOutput.ArchiveChat` | split_whatsapp_archives.py:102-106 | an archive has a chat file exactly when its year has chat lines, and the file is those lines each followed by a line feed |
| `ArchiveOutput.BundleMedia` | split_whatsapp_archives.py:111-117 | the media of the bundle of a year are the listed, existing files filed under that year |
| `ArchiveOutput.ArchiveMedia` | split_whatsapp_archives.py:111-117 | an archive holds exactly the listed, existing media files filed under its year |
| `ArchiveOutput.ReadLineStored` | split_whatsapp_archives.py:52 | a line as `readlines()` returns it is stored without any line feed |
| `ArchiveOutput.PlacedWithoutFeeds` | split_whatsapp_archives.py:63-72 | grouping lines without line feeds gives groups without line feeds |
| `ArchiveOutput.ArchiveChatLines` | split_whatsapp_archives.py:105-106 | splitting an archive's chat file at line feeds gives back the year's stored lines, then one empty field |
| `ArchiveOutput.BundleSources` | split_whatsapp_archives.py:93-111 | when every year processed is a chat year or a media year, a bundle without a chat file has a media bucket |
| `ArchiveOutput.ArchiveHasSource` | split_whatsapp_archives.py:95-111 | every archive has a chat file or at least one media file filed under its year |

## Left out

- File system and archive I/O: `open`/`readlines`, `os.listdir`,
  `os.path.exists`, `shutil.copy`, `os.makedirs`, `zipfile` writing,
  `os.walk` and `shutil.rmtree`. Their results are inputs (the lines, the
  listing, the set of existing names), and their effects are the `Bundle`
  of each year. The archive's entry order, its compression, and files that
  already sat in a reused `output_folder/<year>` directory
  (`exist_ok=True`) are not modelled. Exceptions raised by the I/O itself
  are outside `ArchiveOutput.Outcome`: `readlines()` raising
  `UnicodeDecodeError` on a `_chat.txt` that is not valid UTF-8, and
  `shutil.copy` raising `IsADirectoryError` on a listed subdirectory whose
  name carries a year (it passes `os.path.exists`), are not modelled.
- `readlines()` turning `\r\n` and `\r` into `\n` (universal newlines): the
  lines are taken as already read.
- All `print` diagnostics, including the 50-character excerpt of unmatched
  lines, and the command-line handling under `__main__`: output and process
  exit only.
- `PythonText.PyInt`: only ASCII digits surrounded by whitespace are
  accepted. Python's `int()` also accepts a sign, `_` between digits and
  non-ASCII decimal digits. These lie outside the subset modelled here, so
  a third field such as `+14` is modelled as a ValueError. The model also
  ignores the configurable limit on the length of decimal text
  (`sys.get_int_max_str_digits()`, 4300 digits by default in current
  CPython releases), above which `int()` raises ValueError. A year field
  longer than that is converted by the model, so `YearParsing.OtherLengthYear`,
  `YearParsing.DateRoundTrip` and `ChatGrouping.DatedMessageLine` give a
  year, and `ArchiveOutput.ProcessChat` writes archives, where CPython
  raises and the script stops.
- `YearParsing.ExtractYearFromFilename`: `isdigit()` is modelled on ASCII
  digits only. Python's `isdigit()` also accepts other Unicode digits,
  some of which `int()` then rejects.
- The model assumes a POSIX platform. `ArchiveOutput.PathJoin` and
  `ArchiveOutput.Basename` follow POSIX path rules only (`/` as the only
  separator). `ArchiveOutput.ChatContent`, `ArchiveOutput.WriteChat` and
  `ArchiveOutput.ArchiveChat` write each line followed by `\n`, as a
  text-mode write does on POSIX; on Windows the file is opened in text
  mode and each `\n` is written as `\r\n` (`os.linesep`).
