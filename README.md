# papa-toolkit: date folders and photo placement, in Dafny

This project models the three pieces of papa-toolkit that put photos and
folders into date-named directories, and proves what each promises.

- **`year_organizer.py`.** It validates folder names that start with a
  `YYYY-MM-DD` date and moves each valid date folder of a target directory
  into a folder named after its year.
  - When the name is taken in the year folder, the folder goes to the first
    free `name_NN`.
  - It keeps the run's statistics and honours a dry run.
- **`image_syncer.py`.** It dates every regular file of a source folder and
  moves the file to `destination/YYYY-MM-DD/<name>`.
  - The date comes from the photo's EXIF DateTimeOriginal tag (tag 36867 of
    the Exif standard, JEITA CP-3451, section 4.6.5).
  - Failing that, it comes from the first `DDDD-DD-DD` in the file name.
- **`image-syncer/main.py`.** The earlier script moves every regular file to
  `destination/DD-MM-YYYY/<name>`, using today's date for files without an
  EXIF date.

The directory tree is a finite map from paths (sequences of names) to regular
files and directories. It is held by a class, `FileSystem.Fs`, whose two
methods are `mkdir(parents=True)` (`os.makedirs`) and `shutil.move`. Either
method can fail, and the model takes a failure to leave the tree as it was
(an atomic operation); such a failure stands for an `OSError`. The EXIF reader (Pillow's `Image.open(...)._getexif()`) is an
oracle passed in as a function from a file's bytes to an `Exif.ExifRead`
value. The clock of `main.py` is a parameter (`today`).

The modules:

- **`Wrappers`**: `Option`.
- **`Dates`**:
  - decimal numerals;
  - the Gregorian calendar within Python's `datetime` year range;
  - `strptime` and `strftime` for `%Y-%m-%d`, `%d-%m-%Y` and `%Y:%m:%d %H:%M:%S`.
- **`FileSystem`**: the tree and the `Fs` class.
- **`Exif`**: the oracle, `_get_image_creation_date` and `_suppress_and_log`.
- **`Placement`**: moving a file into a folder created on demand, and the
  facts about the tree that the two photo loops share.
- **`ImageSyncer`**, **`LegacySyncer`** and **`YearOrganizer`**: the three
  programs.

## Model

| member | source | states |
|---|---|---|
| YearOrganizer.ValidateDateFolder | year_organizer.py:28-49 | Valid exactly when the name matches `^(\d{4})-(\d{2})-(\d{2})(?:.*)?$` and the ten characters are a real Gregorian date (year 1-9999, month 1-12, day within the month). A valid name's year is its first four characters with no error. A pattern mismatch and an impossible date give their two distinct errors and no year. |
| YearOrganizer.MatchesDateFolderPattern | year_organizer.py:28 | No contract of its own. It is the `re.match` of `^(\d{4})-(\d{2})-(\d{2})(?:.*)?$`: ten characters of `DDDD-DD-DD` shape, then no newline except possibly a last one, since `$` also matches before a final newline. `ValidateDateFolder` and `YearFolderIsNoDateFolder` state what it means. |
| YearOrganizer.YearFolderIsNoDateFolder | year_organizer.py:28 | A four-character year folder such as `2019` never matches the pattern, so it is never selected. Follows from the definitions (empty proof). |
| YearOrganizer.SuffixedNameInjective | year_organizer.py:176 | Distinct counters give distinct `name_NN` names: the at-least-two-digit zero-padded suffix reads back as its counter. |
| YearOrganizer.CandidateInjective | year_organizer.py:174-177 | The places tried (bare name, `name_01`, `name_02`, ...) are pairwise distinct. |
| YearOrganizer.TakenCandidates | year_organizer.py:175-178 | If the first `n` places are all taken, the tree has at least `n` entries, so the renaming loop ends. |
| YearOrganizer.ResolveCollision | year_organizer.py:174-179 | Returns the place of the smallest counter whose path does not exist, after every smaller counter's path (the bare name first) was found taken. |
| YearOrganizer.TotalIncrement | year_organizer.py:188 | `years[year] = years.get(year, 0) + 1` raises the sum of the per-year counts by exactly one. |
| YearOrganizer.Tally | year_organizer.py:185-194 | One outcome raises `processed + errors` by one. A move adds one to `processed` and `moved` and puts its year among the years. A failure adds one error and leaves the rest. `invalid` and `dry_run` are kept. |
| YearOrganizer.Tallied | year_organizer.py:146-194 | After any sequence of outcomes, `processed + errors` is the number of outcomes and `processed == moved`. `invalid` and `dry_run` are as set. |
| YearOrganizer.TalliedAppend | year_organizer.py:185-194 | One pass of the loop updates the statistics by its outcome alone: a move adds one success, a failure adds one error. Follows from the definitions (empty proof). |
| YearOrganizer.TalliedMeaning | year_organizer.py:185-194 | After any sequence of outcomes: `processed == moved ==` the number of successes; `errors ==` the number of failures; `invalid` and `dry_run` are as set; each year maps to the number of folders moved into it; only years with a move appear; the years' counts add up to `moved`. |
| YearOrganizer.MoveToYearFolder | year_organizer.py:159-194 | For one folder, a dry run changes nothing and reports the unsuffixed place. Otherwise a success moves the folder's whole subtree, unchanged, to the first free place in its year folder. Everything outside the folder is kept, and only the year folder's subtree grows. A failed `mkdir` or move leaves the tree as it was, or with only the year folder added; the folder itself stays where it was. New entries are only the year folder and entries below the folder's new place. A moved folder's place is the candidate of the counter it reports. |
| YearOrganizer.ListChildDirs | year_organizer.py:114 | Lists each subdirectory of the target exactly once, and nothing else: regular files are not candidates. |
| YearOrganizer.SelectDateFolders | year_organizer.py:121-128 | Keeps exactly the valid date folders, each once and paired with its year. Counts exactly the names that match the pattern but are no real date; names that do not match are neither kept nor counted. |
| YearOrganizer.SelectionMeaning | year_organizer.py:114-128 | Over the listed subdirectories, the kept and counted names are the target's valid date folders and its invalid date folders. Follows from the definitions. |
| YearOrganizer.MoveAll | year_organizer.py:146-194 | Every selected folder is attempted, in order, even after a failure. The statistics are those of the outcomes. A dry run changes nothing and counts every folder as moved. Outside a dry run, every moved folder lies intact below its year folder. Every folder whose move failed is unchanged in place. Nothing outside the date folders changes. Each new entry is the year folder of an attempted folder or lies within a moved folder's new place. Each moved folder went to a candidate place (its name, or its name with a counter suffix) of its year folder; outside a dry run that place was free before the run, so nothing was overwritten. |
| YearOrganizer.AtFreePlacesStep | year_organizer.py:168-183 | A place found free just before a move was also free when the run started. Year folders have four-character names and lie outside every date folder, whose names are longer, so earlier moves cannot have freed that place. |
| YearOrganizer.OrganizeFoldersByYear | year_organizer.py:95-194 | An unlistable target, a target with no subdirectories, or one with no valid date folder ends early and changes nothing; the last reports the invalid count. A full run attempts exactly the valid date folders, once each. Its statistics satisfy `processed == moved == sum(years)` and `errors == attempts - moved`. A dry run changes nothing. Nothing outside the date folders is touched, and each moved folder lies intact at its year-folder place. Each folder whose move failed is unchanged in place. Each new entry is the year folder of an attempted folder or lies within a moved folder's new place. Each moved folder went to a candidate place (its name, or its name with a counter suffix) of its year folder; outside a dry run that place was free before the run, so nothing was overwritten. |
| Dates.DaysInMonth | year_organizer.py:44-49 | Every month has 28 to 31 days, and 29 exactly for February of a leap year. |
| Dates.LeapDay | year_organizer.py:44-49 | February 29 is a date exactly in leap years, and February 30 never is. Follows from the definitions (empty proof). |
| Dates.ParseIsoDate | image_syncer.py:53 | `strptime(s, "%Y-%m-%d")` on a `DDDD-DD-DD` string gives a date only when it is a real calendar date. |
| Dates.FormatIsoDate | image_syncer.py:93 | No contract beyond needing a valid date. It is `strftime("%Y-%m-%d")` with the year unpadded. `IsoDateRoundTrip` and `IsoDateFormatsBack` state what it means. |
| Dates.IsoDateRoundTrip | image_syncer.py:93 | A date of a four-digit year formatted as `%Y-%m-%d` has the `DDDD-DD-DD` shape and parses back to itself, so every date folder parses as a date. |
| Dates.IsoDateFormatsBack | image_syncer.py:49-54 | A file-name date whose year has no leading zero is written back unchanged as its folder's name. |
| Dates.FormatDayFirst | image-syncer/main.py:42 | No contract beyond needing a valid date. It is `strftime("%d-%m-%Y")`. `DayFirstInjective` states what it means. |
| Dates.DayFirstInjective | image-syncer/main.py:42 | Distinct dates get distinct `%d-%m-%Y` folder names. |
| Dates.ParseExifDateTime | image_syncer.py:41 | `strptime(s, "%Y:%m:%d %H:%M:%S")` gives a value only for a fully written stamp that is a real date and time of day. |
| Dates.ExifDateTimeRoundTrip | image_syncer.py:41 | A stamp written in the EXIF form for a four-digit year is read back exactly. |
| Exif.ImageCreationDate | image_syncer.py:34-43 | Raises exactly when the image cannot be opened or the non-empty DateTimeOriginal text is no valid stamp. Returns no date exactly when the image has no EXIF block, an empty one, or no or empty tag 36867. A returned date is the tag's parse. |
| Exif.SuppressAndLog | image_syncer.py:25-31 | An exception inside the block leaves the result at `None`; otherwise the block's value is kept. |
| Exif.MetadataDate | image_syncer.py:82-84 | The metadata date exists exactly when tag 36867 holds text that parses; it is then that parse, a valid date and time. |
| Exif.StampReadBack | image_syncer.py:39-42 | An image whose DateTimeOriginal holds a camera-written stamp of a four-digit year is dated by exactly that moment. |
| ImageSyncer.SearchDate | image_syncer.py:46-50 | `_DATE_RE.search` finds the leftmost position where `\d{4}-\d{2}-\d{2}` matches, or reports that there is none. |
| ImageSyncer.DateFromFilename | image_syncer.py:49-54 | No match gives no date, and only then. It raises exactly when the first match is no real date. A returned date is the first match's parse. |
| ImageSyncer.FirstDateUnique | image_syncer.py:50 | There is only one first match. Follows from the definitions (empty proof). |
| ImageSyncer.LaterDateIgnored | image_syncer.py:50-53 | A valid date later in the name does not rescue an impossible first one: the call still raises. |
| ImageSyncer.LeadingDate | image_syncer.py:49-54 | A name that starts with a real date is dated by it. Follows from the definitions (empty proof). |
| ImageSyncer.IsVideo | image_syncer.py:57-59 | No contract of its own. It is `filename.lower().endswith(video_extensions)` over `.mp4`, `.mov`, `.avi` and `.mkv`. `VideoByLastFour` and `VideoIgnoresCase` state what it means. |
| ImageSyncer.VideoByLastFour | image_syncer.py:57-59 | `_is_video` holds exactly when the lower-cased last four characters are `.mp4`, `.mov`, `.avi` or `.mkv`. |
| ImageSyncer.VideoIgnoresCase | image_syncer.py:59 | Lower-casing the name first does not change the answer. |
| ImageSyncer.PlanFor | image_syncer.py:80-91 | A metadata date always wins. The file name is consulted only without one: it aborts the run exactly when its first match is an impossible date, and leaves the file undated exactly when it has no match. Otherwise the file is dated by its first match. Every planned date is valid. |
| ImageSyncer.Target | image_syncer.py:93-100 | The target is `destination/<date folder>/<name>`: two levels below the destination, with the file name kept verbatim. |
| ImageSyncer.IgnoredFilesStay | test_image_syncer.py:27-29 | Without metadata dates, `.ignore` and `picasa.ini` are left undated in the source. |
| ImageSyncer.PhotoDateParses | test_image_syncer.py:21 | `2018-05-20` has the date shape and is May 20, 2018. |
| ImageSyncer.VideoDateParses | test_image_syncer.py:22 | `2015-03-26` has the date shape and is March 26, 2015. |
| ImageSyncer.MediaFilesDated | test_image_syncer.py:57-62 | Without metadata dates, the test's photo and video are dated by their names. |
| ImageSyncer.PlaceFile | image_syncer.py:78-105 | An entry that is no regular file, or an undated file, is left alone. A file whose name date is impossible stops the run and changes nothing. A dated file is moved to its target after its date folder is created when missing; a dry run does neither. |
| ImageSyncer.OrganizeImages | image_syncer.py:68-107 | A dry run changes nothing and completes exactly when no file's plan aborts. A completed run left no file aborting and, outside a dry run, moved every dated file. Each moved file lies at its dated target with its bytes and is gone from the source; every unmoved file is untouched. A completed run that is no dry run leaves the destination in place. Every other entry is kept, except that a regular file at a moved file's target is replaced by that file. Each new entry is a moved file's target, a directory on the way to the destination, or a directory that is the date folder of a dated file of the source. |
| ImageSyncer.DestinationStays | image_syncer.py:72-73 | A destination that was there before the moves is still there after them: a moved file can only replace a regular file, so the destination could go only if it were itself a moved file, and then the file moved below it keeps it as a directory. |
| Placement.MoveIntoFolder | image_syncer.py:94-100 | A dry run changes nothing. Otherwise it creates the folder when missing, then moves the file. On success the file arrives with its bytes and replaces at most a regular file; on failure both ends are kept. Nothing else changes except the new directories on the way. |
| LegacySyncer.GetImageCreationDate | image-syncer/main.py:15-26 | The nested reader, which turns every exception into `None`, gives the same date as the metadata step of `image_syncer.py`. |
| LegacySyncer.FolderFor | image-syncer/main.py:40-54 | No contract beyond needing a valid `today`. It is the photo's day, or else today, written `%d-%m-%Y`. `SameFolderSameDay` states what it means. |
| LegacySyncer.SameFolderSameDay | image-syncer/main.py:29-54 | Two files share a folder exactly when their days agree, counting an undated file as of today, so all undated files of a run share one folder. |
| LegacySyncer.LegacyTarget | image-syncer/main.py:40-61 | The target is `destination/<DD-MM-YYYY>/<name>`, with the file name kept verbatim. |
| LegacySyncer.MoveFile | image-syncer/main.py:33-62 | A directory is skipped. A regular file is always moved to its dated or today's folder, which is created when missing. The move reports success exactly when it happened. |
| LegacySyncer.LegacyMain | image-syncer/main.py:8-64 | Fails when the source is not a folder (unless it lies on the way to the destination, which the script creates first). A completed run moved every regular file of the source and leaves the destination in place. Each moved file lies in its `DD-MM-YYYY` folder with its bytes; an unmoved file is untouched. Other entries are kept, except that a regular file at a moved file's target is replaced by that file. Each new entry is a moved file's target, a directory on the way to the destination, or a directory that is the dated folder of a regular file of the source. |
| LegacySyncer.LegacyDestinationStays | image-syncer/main.py:11-12 | The destination that `main` created is still there after the moves, for the same reason as in `ImageSyncer.DestinationStays`. |
| FileSystem.Fs.MakeDirs | year_organizer.py:165-166 | `mkdir(parents=True)` either creates the path and its missing ancestors as directories, which needs the path absent and no regular file on the way, or fails and changes nothing. |
| FileSystem.Fs.Move | year_organizer.py:183 | `shutil.move` either renames the source's subtree to the target, which needs the target's parent to be a directory, the target outside the source, and no directory replaced, or fails and changes nothing. |

## Left out

- Printing and logging are not modelled. That covers `_print_progress_bar`, `_print_banner` and `_print_summary`, the warnings and info messages, the logging set-up, and the argparse code of every `main`. The statistics are returned as a value instead of being printed.
- Pillow's `Image.open`/`_getexif` and `imghdr` are foreign libraries. The EXIF read is an oracle and `_is_image`, which nothing calls, is not modelled.
- `datetime.now()` is a clock, so `today` is a parameter of `LegacySyncer.LegacyMain`.
- Directory listings return an unspecified order. The loops take the names in any order, and the proofs hold for every order.
- Concurrent changes to the tree by other processes are not modelled, such as a file vanishing between the `exists` check and the `mkdir`.
- `image-syncer/src/image_syncer.py` is not part of this model. It is a duplicate of the earlier script that does not parse. The two `setup.py` files are packaging only.
- FileSystem.Fs.Move: moving onto an existing directory counts as a failure, though `shutil.move` would move into it. Renaming a path onto itself also counts as a failure.
- FileSystem.Fs.MakeDirs: the creation of the missing ancestors is atomic here.
- FileSystem.Fs.Move: a move is atomic here; `shutil.move`'s copy-then-delete fallback (across file systems) can leave a partial copy when it fails.
- Dates.ParseExifDateTime is stricter than CPython's `strptime`, which also accepts one-digit fields and runs of white space. Here every field must be written in full, 19 characters in all.
- Dates.FormatIsoDate writes `%Y` as glibc does, without zero padding. The round trips are stated only for years of four digits.
- YearOrganizer.ValidateDateFolder and ImageSyncer.DateFromFilename read `\d` as ASCII digits only; Python also accepts other Unicode decimal digits.
- ImageSyncer.IsVideo lower-cases ASCII letters only; Python's `str.lower()` also folds other letters.
- The `exclude` set of `image_syncer.py` holds strings but is tested against a `Path`, so it never excludes anything. It is modelled as the no-op it is.
- `organize_images` catches no per-file error: an impossible file-name date, a failed `mkdir` or a failed move ends the run. It does not suffix colliding names and keeps no statistics. Undated files in `main.py` go to today's folder.
- The `exists`, `is_file` and `is_dir` checks (`FileSystem.Fs.Exists`, `IsFile` and `IsDir`) never fail here. Before Python 3.14, `Path.exists()` re-raises an `OSError` other than a missing path, such as a `PermissionError` on an unsearchable `target/2019`. `year_organizer.py` would count that folder as an error, even in a dry run, and `image_syncer.py` would let it end the run. Neither is modelled.
