# iOS photo mover: the placement core in Dafny

The model covers the part of `IOSPhotoMover` that decides where a photo or video goes and what happens to it on the way:

- **Capture date.** `load_photos` works out a capture date for each device item. It tries the device's property columns first, then an `IMG_`/`VID_` filename, then a `YYYYMM…` parent-folder name. The result is stored as a `YYYY-MM-DD` string or "Unknown".
- **Destination folder.** `get_photo_date` and `get_destination_folder` turn that string into a month folder or a day folder under the output base, or the Unknown folder, and create it.
- **Duplicates.** The move loop applies the duplicate policy: skip, overwrite, or keep both under the first free `stem_k.suffix` name.
- **Transfer wait.** It waits up to 120 one-second ticks for the shell copy to land, logging a notice every ten ticks.
- **Timestamps.** It stamps the copy's times through `preserve_file_metadata`.
- **Accounting.** It counts moved, skipped and failed items, and keeps the error lines in order.

The modules follow the program's structure:

| module | file | models |
|---|---|---|
| `Options` | options.dfy | `Option`, and "the first candidate that works" |
| `Text` | text.dfy | the string built-ins used: `strip`, `split`, `replace`, `isdigit`, `count`, `str(int)` |
| `Calendar` | calendar.dfy | dates, leap years, `strftime("%Y-%m")` and `strftime("%Y-%m-%d")` |
| `Strptime` | strptime.dfy | `datetime.strptime` for `%Y`, `%m` and `%d` formats, following CPython's `_strptime`: its regular expressions, its backtracking, the "unconverted data remains" check, and the calendar check |
| `CaptureDate` | capture_date.dfy | the capture-date cascade of `load_photos` |
| `FileSystem` | filesystem.dfy | the destination disk: `exists`, `mkdir(parents=True, exist_ok=True)`, `unlink`, `shutil.move` |
| `Placement` | placement.dfy | `get_photo_date` and `get_destination_folder` |
| `Duplicates` | duplicates.dfy | `PurePath.stem` and `suffix`, the `keep_both` probe, the duplicate policy |
| `Monitor` | monitor.dfy | the wait for the copy to complete |
| `Metadata` | metadata.dfy | `preserve_file_metadata` and its helpers |
| `Batch` | batch.dfy | `_move_photos_thread` |

The outside world becomes parameters of the model:

- **Device columns.** The device's property columns are a `seq<string>`. Column `c` is what `GetDetailsOf(file_obj, c)` returns, and a column past the end is empty.
- **Transfer trace.** The transfer is a trace of observations, one per tick: the file is absent, or present with two size samples, or `stat` raised.
- **Shell and copy outcomes.** Whether the shell can open the destination is a boolean, and whether `CopyHere` raises is an optional message.
- **Stamp parsing.** The back-writer's timestamp formats use `%I`, `%p`, `%b` and `%y`, so parsing them is an abstract function `StampParser`.
- **Container metadata.** The container parser's report is a record of three optional times.
- **Timestamp write.** Whether `SetFileTime` works is a boolean.

Behaviours of the code worth noting:

- **Two-digit years in the capture date.** The capture-date cascade does not normalise two-digit years. Its `%Y` needs four digits. The `+2000` fix exists only in the back-writer (`main.py:835-836`, `main.py:956-957`).
- **Back-writer order.** The back-writer does not start from the device's columns. It tries, in order:
  1. the copied file's own shell columns 208, 12, 4 and 3;
  2. the container metadata;
  3. the device's columns 0 to 49;
  4. the catalogue's date at noon.

  The catalogue step reads the first catalogue row with the same file name, which need not be the item's own row.
- **Slash and dash dates.** A column showing `NN/NN/NNNN` is read month first, because `%m/%d/%Y` is tried before `%d/%m/%Y`. A column showing `NN-NN-NNNN` is read day first, because `%d-%m-%Y` is tried before `%m-%d-%Y`. Eight bare digits never reach the formats, since the filter wants a `/`, `-` or `:`.
- **Unknown modes.** A sort mode other than the two known ones puts dated items in a folder named "Unknown" under the base. A duplicate mode other than the three known ones copies over the old file.
- **Stat errors.** A `stat` that raises while the file is being watched fails the item at once. The loop does not wait for the timeout.

## Model

| member | source | states |
|---|---|---|
| Strptime.IsoParseOfDashedDigits | main.py:769-770 | `strptime(…, "%Y-%m-%d")` on eight digits laid out `YYYY-MM-DD` gives exactly the date they spell, and fails exactly when no such date exists |
| Strptime.IsoRoundTrip | main.py:541 | a date written with `strftime("%Y-%m-%d")` is read back unchanged by `strptime` with the same format |
| Strptime.ParseMonthFirst | main.py:540 | `%m/%d/%Y` on `NN/NN/NNNN` succeeds exactly when the month-first reading is a real date, and gives that date |
| Strptime.ParseDayFirst | main.py:540 | `%d/%m/%Y` on `NN/NN/NNNN` succeeds exactly when the day-first reading is a real date, and gives that date |
| Strptime.ParseYearSlash | main.py:524-525 | `%Y/%m/%d` on eight digits laid out `YYYY/MM/DD` gives exactly the date they spell, and fails exactly when no such date exists |
| Strptime.YearFirstWrongSeparator | main.py:524-525 | a `%Y?%m?%d` format rejects text whose fifth character is not its separator |
| Strptime.YearFirstFormatsNeedYear | main.py:524-525 | `%Y-%m-%d` and `%Y/%m/%d` reject text whose third character is not a digit, such as `NN-NN-NNNN` |
| Strptime.DashFormatsNeedDash | main.py:526 | `%d-%m-%Y` and `%m-%d-%Y` reject text that opens with two digits and then no dash, such as a leading year |
| Strptime.ParseCompact | main.py:526 | `%Y%m%d` reads the eight digits of a real date as that date |
| Strptime.ParseDayFirstDash | main.py:526 | `%d-%m-%Y` on `NN-NN-NNNN` succeeds exactly when the day-first reading is a real date, and gives that date |
| Strptime.ParseMonthFirstDash | main.py:526 | `%m-%d-%Y` on `NN-NN-NNNN` succeeds exactly when the month-first reading is a real date, and gives that date |
| Calendar.DigitsOfDateRoundTrip | main.py:541 | the eight digits of a rendered date read back as that date, and the rendering is those digits with dashes |
| Calendar.MonthTextIsPrefixOfDayText | main.py:789-794 | the month folder name is the first seven characters of the day folder name |
| CaptureDate.TrimmedFormats | main.py:520-540 | each of the fifteen column formats, cut at its first space, is only its date part, and these cut formats are the list the column parser tries; the two `%-` formats do not compile, so they parse nothing |
| CaptureDate.ColumnValueDate | main.py:514-545 | a column's date, when it yields one, is a real calendar date, and the column's stripped text is not empty and has a `/`, `-` or `:` and a digit |
| CaptureDate.FirstParseIsFirst | main.py:531-545 | the date found is that of the first format that parses, every earlier format having failed |
| CaptureDate.FirstParseMisses | main.py:531-545 | no date is found exactly when every format fails |
| CaptureDate.TimedValueParsesDatePart | main.py:533-540 | a value with a space and a `:` is parsed by its first word alone |
| CaptureDate.TimedSlashValue | main.py:533-541 | a column showing `NN/NN/NNNN`, a space and a time, such as "01/02/2024 10:30 AM", gives the month-first date |
| CaptureDate.StoredDateReadsBack | main.py:519-541 | a column showing a date as `strftime("%Y-%m-%d")` writes it is read back as that date: both slash formats fail on the leading year, and the fifth format reads it |
| Strptime.SlashFormatsNeedSlash | main.py:540 | `%m/%d/%Y` and `%d/%m/%Y` reject text that opens with two digits and then no slash, such as a leading year or `NN-NN-NNNN` |
| CaptureDate.SlashDateIsMonthFirst | main.py:518-541 | a `NN/NN/NNNN` column is read month first whenever that is a real date, and day first only when it is not |
| CaptureDate.DashedDateIsDayFirst | main.py:519-541 | a `NN-NN-NNNN` column is read day first whenever that is a real date, and month first only when it is not, the reverse of the slash rule |
| CaptureDate.YearSlashValueReads | main.py:519-541 | a column showing a real date as `YYYY/MM/DD` is read as that date, by the sixth format, after the slash formats and `%Y-%m-%d` fail on it |
| CaptureDate.BareDigitsAreNoDate | main.py:519 | a column whose stripped text is all digits, such as "20240102", yields no date: it has no `/`, `-` or `:` |
| CaptureDate.TimedCompactValue | main.py:519-541 | a column showing the eight digits of a real date, a space and a time, such as "20240102 10:30", is read as that date by `%Y%m%d`, every earlier format failing on the digits |
| CaptureDate.ColumnDateIsFirstHit | main.py:511-548 | the column source returns the date of the first of columns 0 to 30 that yields one |
| CaptureDate.ColumnDateMisses | main.py:511-548 | the column source finds nothing exactly when none of columns 0 to 30 yields a date |
| CaptureDate.ColumnsPastThirtyIgnored | main.py:511 | columns past 30 never affect the result |
| CaptureDate.FilenameDate | main.py:551-564 | a filename date exists only for `IMG_`/`VID_` names, and is eight digits laid out with dashes |
| CaptureDate.FilenameDateReads | main.py:553-562 | the filename source reads the field after the prefix up to the next `_`, drops every `E`, and uses its first eight characters when they are digits |
| CaptureDate.StampedName | main.py:553-562 | `IMG_`/`VID_`, any number of `E`s, eight digits and any tail give exactly those digits as the date |
| CaptureDate.FolderDate | main.py:566-576 | a folder date exists exactly when the folder name starts with six digits, and it is those digits followed by `01`, laid out with dashes |
| CaptureDate.FolderDateIsFirstOfMonth | main.py:569-573 | the digits of a folder date spell day 1 of the year and month the name starts with, with no range check |
| CaptureDate.FolderDateExample | main.py:566-573 | the folder `202410_x` gives `2024-10-01` |
| CaptureDate.CaptureDateText | main.py:510-576 | the stored string is "Unknown" exactly when all three sources fail; otherwise it is ten characters with two dashes |
| CaptureDate.LaterSourcesIgnored | main.py:551-566 | once a source yields a date, the later sources cannot change the stored string |
| CaptureDate.CaptureDateSource | main.py:537-570 | a column date is stored through `strftime("%Y-%m-%d")`; a filename or folder date is stored as its digits with dashes |
| CaptureDate.DashedShape | main.py:769 | a dashed date from the filename or folder always passes `get_photo_date`'s shape check |
| Placement.PhotoDate | main.py:759-774 | a date read back is a real date, taken from a ten-character string with two dashes that is not "Unknown" |
| Placement.PhotoDateOfDayText | main.py:769-770 | reading back a stored column date gives the date itself |
| Placement.PhotoDateOfDashedDigits | main.py:759-774 | reading back a filename or folder date gives the date when it is real, and nothing otherwise |
| Placement.PhotoDateOfCaptureDate | main.py:759-774 | what `get_photo_date` makes of each outcome of the capture-date cascade: the column date itself, None for "Unknown", and a filename or folder date exactly when it is a real day; a folder date is read as day 1 of the folder's month |
| Placement.FolderName | main.py:787-796 | month mode gives `YYYY-MM`, the day name's prefix; day mode gives a name that reads back as the date; any other mode gives "Unknown" |
| Placement.DestinationFolder | main.py:776-800 | undated items go to the Unknown folder and dated ones to the mode's folder under the base; the folder exists afterwards and no file changes; it fails exactly when a file stands on the folder's path |
| Placement.DestinationReused | main.py:776-800 | repeating the call for the same date string returns the same folder and changes nothing more |
| Placement.FolderGranularity | main.py:789-794 | month folders are shared exactly by items of the same year and month, and day folders exactly by items of the same date |
| FileSystem.MakeDirs | main.py:798-799 | `mkdir(parents=True, exist_ok=True)` creates the path and all its ancestors, and raises exactly when a file stands on one of them |
| FileSystem.MakeDirsIdempotent | main.py:799 | a second `mkdir` of the same path changes nothing |
| FileSystem.MakeDirsWellFormed | main.py:783 | `mkdir` keeps files and directories apart, and keeps every entry inside a directory |
| FileSystem.Unlink | main.py:1106 | `unlink` succeeds exactly on a file, and removes only that file |
| FileSystem.MoveFile | main.py:1155 | the move succeeds exactly when the source is a file and the destination is free in an existing folder; only the name changes |
| Duplicates.StemSuffixSplit | main.py:1110-1111 | stem and suffix together restore the name; the suffix is empty or a dot followed by text without dots |
| Duplicates.CandidateInjective | main.py:1113 | different counters give different `stem_k.suffix` names |
| Duplicates.ProbeFrom | main.py:1109-1114 | the probe stops at the first free counter, and every counter before it is taken |
| Duplicates.KeepBothName | main.py:1107-1115 | the `keep_both` name is free, keeps the suffix, starts with `stem_`, and uses the smallest free counter from 1 |
| Duplicates.KeepBothExample | main.py:1109-1114 | with `photo.jpg` and `photo_1.jpg` present, the new name is `photo_2.jpg` |
| Duplicates.PrepareTarget | main.py:1096-1116 | a free name is used as it is; "skip" skips exactly a taken name; "overwrite" removes the old file or fails on a directory; "keep_both" picks a free name without touching the disk |
| Monitor.WatchFrom | main.py:1141-1180 | the wait succeeds only on two equal positive samples, fails on a `stat` error, and times out exactly when no tick before 120 ends it |
| Monitor.WatchingEndsAtFirstEvent | main.py:1141-1168 | the wait ends at the first tick that succeeds or fails, with that tick's size |
| Monitor.NoticesAreMultiplesOfTen | main.py:1170-1175 | the `last_log_time` bookkeeping logs a notice at exactly the multiples of ten up to the end of the wait |
| Monitor.WatchingNotices | main.py:1134-1180 | a copy that times out logs twelve notices |
| Monitor.NoticeCount | main.py:1173-1175 | between two multiples of ten lie a tenth of their difference in notices |
| Monitor.WatchIgnoresLateChecks | main.py:1134-1141 | only the first 120 checks can affect the wait |
| Metadata.YearFix | main.py:956-957 | a year below 100 gains 2000, any other year is kept, and so are the month, the day and the time |
| Metadata.YearFixKeepsValid | main.py:835-836 | `dt.replace(year=dt.year + 2000)` never produces an invalid date |
| Metadata.ParseStamp | main.py:832-840 | a stamp is found exactly when some format parses, and it is the first parsing format's time with the year fixed |
| Metadata.CopiedFileDate | main.py:802-846 | the copied file's date comes from one of columns 208, 12, 4, 3 whose non-empty stripped text parses, and is missing exactly when none does |
| Metadata.CopiedFileDateIsFirstHit | main.py:812-841 | it is the date of the first of those columns whose text parses |
| Metadata.ContainerDate | main.py:864-874 | the creation date wins, then the date-time, then the last modification; nothing is found exactly when all three are missing |
| Metadata.ContainerDateIsFirstPresent | main.py:864-874 | the container date is the first present of the three times, in that order |
| Metadata.SourceColumnDate | main.py:926-967 | a device-column time comes from a stamp-like column that parses |
| Metadata.SourceColumnDateIsFirstHit | main.py:926-967 | it is the time of the first of columns 0 to 49 that is stamp-like and parses |
| Metadata.SourceColumnsAllFail | main.py:926-967 | the device columns give no time exactly when every stamp-like column among 0 to 49 fails to parse |
| Metadata.CatalogueDate | main.py:991-1001 | the fallback is noon of a real date, read from a catalogue row with the file's name |
| Metadata.PreserveMetadata | main.py:883-1025 | a time is written exactly when the write works and some stage finds one; the time written is the first stage's |
| Metadata.EarlierSourceWins | main.py:890-1001 | the media date hides the device columns, which hide the catalogue fallback |
| Metadata.CatalogueNoonOfColumnDate | main.py:991-1001 | for an item dated from its columns, the fallback writes noon of that same day |
| Metadata.CatalogueFirstNamesake | main.py:992-996 | the fallback reads the first catalogue row with the file's name |
| Batch.Finish | main.py:1148-1168 | after a complete copy the file ends at its target, under the rename when `keep_both` chose another name; a rename error fails the item |
| Batch.Deliver | main.py:1120-1186 | an inaccessible destination, a raising copy, a timeout or a `stat` error each fail the item and leave the disk alone; otherwise the copy is finished |
| Batch.ProcessAsWritten | main.py:1075-1192 | the loop body as written skips exactly the items whose name is taken in "skip" mode |
| Batch.ProcessItem | main.py:1075-1192 | the loop body with the `keep_both` correction below skips exactly the items whose name is taken in "skip" mode |
| Batch.MovedPlacement | main.py:1096-1168 | for either body, a moved file is on disk in its dated folder, under its own name or the `keep_both` name, and every file without that name stays; under `keep_both` the file that had the name stays when corrected and is gone as written |
| Batch.MovedExactlyWhen | main.py:1083-1168 | for either body, an item is moved exactly when its folder is made, the policy lets it through, the shell can open the folder, the copy does not raise, and the copy completes |
| Batch.AsWrittenAgreesElsewhere | main.py:1096-1168 | outside `keep_both` with a taken name, the corrected body equals the body as written |
| Batch.KeepBothLosesOriginal | main.py:1107-1156 | as written, `keep_both` on a taken name leaves no file under the original name after a successful move |
| Batch.KeepBothKeepsOriginal | main.py:1107-1156 | corrected, the old file stays and the new one lands under the first free `stem_k` name |
| Batch.StampIndependent | main.py:1158-1163 | for either body, the back-writer's findings never change whether an item is moved, skipped or failed, nor the disk |
| Batch.MoveLoop | main.py:1075-1192 | for any loop body, the disk, the counts and the error lines are those of the reference run, and the counts cover every item exactly once |
| Batch.MovePhotos | main.py:1069-1192 | `MovePhotos(fs, s, jobs, AsWritten)` is the program; for either body the counts and the error lines are those of the reference run, and they cover every item exactly once |
| Batch.OutcomeOfPrefix | main.py:1075-1192 | for either body, each item of the run is processed on the disk that the items before it left behind |
| Batch.CountsCoverRun | main.py:1069-1192 | moved + skipped + errors is the number of items |
| Batch.DetailsAreFailures | main.py:1177-1191 | every error line names a failed item and its failure |
| Batch.FailuresAreDetailed | main.py:1177-1191 | every failed item has its error line |

## Findings

| source | as written | input that shows it | evidently intended | confidence | as-written member | corrected member |
|---|---|---|---|---|---|---|
| main.py:1107-1156 | in `keep_both` mode, `CopyHere(file_obj, 16)` still writes `dest_folder / filename`, where the old file is, and flag 16 answers "yes" to replacing it; the watcher then sees that path and the rename carries it to `stem_k.suffix` | `photo.jpg` already in `2024-01`, duplicate mode `keep_both`, a new `photo.jpg` copied successfully: afterwards `photo_1.jpg` exists and `photo.jpg` does not | the old `photo.jpg` stays and the new file is `photo_1.jpg` | medium; not executed: it rests on the shell replacing the file under flag 16 before the watcher first finds a stable size at that path; if the old file satisfies the watcher first, the names swap instead (see Left out) | Batch.KeepBothLosesOriginal | Batch.KeepBothKeepsOriginal |

The corrected loop body `Batch.ProcessItem` writes the copy under its chosen name. `Batch.ProcessAsWritten` keeps the original behaviour, and `Batch.AsWrittenAgreesElsewhere` shows the two differ only in this case. The run (`Batch.MovePhotos`) and its lemmas take the body as a parameter (`Batch.Body`). `MovePhotos(fs, s, jobs, AsWritten)` is the program, and every lemma about the run holds for both bodies.

## Left out

- The Tk interface, the configuration file, device discovery and the COM enumeration of folders are not modelled. Their results enter as parameters.
- Threads, `time.sleep` and the log stream are left out. Tick `w` of the wait is the check made when `wait_time == w`, and notices are returned as a list of ticks.
- The two size samples are taken two and three seconds after the check. They are given directly in each observation.
- A file that lands after the timeout, or after a `stat` error, is not modelled. The model leaves the disk as it was before the copy in those cases.
- The copy is assumed to land as a file. A directory that has the file's name is not modelled past the duplicate policy.
- Exception messages are not rendered. Each failure is a kind, plus the message of the exception where the source forwards it. The "Timeout after 120s" and "Cannot access destination" lines are represented by their kinds.
- Paths are sequences of components. Windows case-insensitivity and path normalisation are not modelled.
- `extract_date_from_file`, `format_size` and size parsing do not affect placement and are not modelled.
- The case where `photo_info` is never bound is not modelled. This happens when a selected id is missing from the catalogue.
- Metadata.ParseStamp: the back-writer's formats use `%I`, `%p`, `%b` and `%y`, so `strptime` for them is an abstract parameter; only the choice of the first format that parses and the year fix are modelled.
- Metadata.ContainerDate: the container parser (hachoir) is an abstract report of three optional times.
- Metadata.PreserveMetadata: `SetFileTime` is a single "the write works" flag. The time is not converted to a Windows file time.
- Strptime.ParseMonthFirst: `isdigit` and `\d` are modelled for ASCII digits only, while Python also accepts other Unicode decimal digits. Whitespace for `strip` and `split` is Python's full `str.isspace` set.
- Calendar.DigitsOfDateRoundTrip: `strftime("%Y")` is taken to pad the year to four digits, as the Windows C runtime does.
- A catalogue row missing its `date` key is not modelled: `date` is always a string.
- Batch.KeepBothLosesOriginal: the transfer trace is a parameter and does not depend on the disk. The model takes every stable observation to be the new copy. When `folder / filename` already exists (as written under `keep_both`, or under an unknown duplicate mode), the real watcher could instead be satisfied at its first check by the old file. Then the rename would move the old file to `stem_k` and the new copy would land later under the original name: the names would swap and nothing would be lost. That interleaving is not modelled.
- FileSystem.MakeDirs: permission errors, locked files and missing drives are not modelled. `mkdir` fails here only when a file stands on the path or on one of its parents.
- FileSystem.Unlink: permission errors and locked files are not modelled. `unlink` fails here only on a directory or a missing path.
- FileSystem.MoveFile: permission errors and locked files are not modelled. Moving onto an existing file fails here, while `shutil.move` replaces the file on Windows. The loop only moves onto a name it has just made free, so this difference never arises there.
- CaptureDate.ColumnValueDate: what the later formats make of a value whose first reading is not a real date is stated only for `NN/NN/NNNN` and `NN-NN-NNNN`. For `YYYY/MM/DD` and `YYYYMMDD` only real dates are covered.
