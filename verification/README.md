# Photo-library organiser — a Dafny model of its filing logic

The organiser copies every image of a source tree into a library laid out as
`<root>\<year>\<make>\YYYYMMDD-HHMMSS[_n]_(<stem>)<ext>`. It reads the capture
date from the photo's EXIF tags and falls back to the file's modification time.
It reads the camera make from the tags, with `"Unknown"` as the fallback. Before
copying, it probes names for attempt 0, 1, 2, … until it finds a free one. If a
taken name already holds the same bytes, the photo is a duplicate and is not
copied.

This project models that decision logic, all of it in `src/experiments.py`:

- `try_parse_date` and the EXIF date format;
- `get_date_from_tags` and its tag precedence;
- the date and make selection of `add_to_library`;
- the folder, the name format and the collision probe of `copy_to_library`;
- the effect of `copy` on the library.

Modules, one per concern:

| module | file | models |
|---|---|---|
| `Wrappers` | wrappers.dfy | Python's `None` as `Option` |
| `Decimal` | decimal.dfy | zero-padded date fields, `str(n)` |
| `Timestamps` | timestamps.dfy | `datetime`, the EXIF text, `try_parse_date` |
| `ExifTags` | exif_tags.dfy | `get_date_from_tags`, the `or` fallback, the make |
| `Paths` | paths.dfy | `ntpath.join`, `basename`, `splitext` |
| `Naming` | naming.dfy | stamp, attempt suffix, entry name, folder, candidate path |
| `Library` | library.dfy | the probe, `copy`, `copy_to_library`, `add_to_library` |

Abstractions:

- The decoded EXIF tags are a `map<string, string>` from tag name to printed value.
- The library is a finite `map<string, seq<byte>>` from path to content.
- The source file's bytes are passed in as a parameter.
- The file's modification time (`get_date_from_os`) is an input `DateTime`.
- The library root is a parameter; the script hard-wires `D:/Img/`.
- A Python `datetime` is the subset type `DateTime`. Year is 1..9999, the day
  fits the Gregorian month, and hour, minute and second are in range. Every
  value that exists in Python is valid, so the subset type states that invariant.

The probe is stated once over any injective attempt-to-path function (`Namer`).
The organiser's own sequence is `Library.Attempts`, whose injectivity follows
from the name format. `Library.CopyToLibrary` is the script's `while True` loop,
written out and proved equal to the functional `Library.Place`.

Behaviour of the code worth knowing, which the model keeps:

- **Unparsable primary tag.** When `EXIF DateTimeOriginal` is present but does
  not parse, `get_date_from_tags` returns `None` at once. `Image DateTime` is not
  consulted (lines 26-27).
- **Separator.** The script runs on Windows (it imports `win32file`), so
  `os.path.join` is `ntpath.join`. It inserts a backslash: `D:/Img/` joined with
  2023 and Canon gives `D:/Img/2023\Canon`.
- **Termination.** The probe loop has no cap. Over a finite library it makes at
  most `|fs| + 1` attempts (`Library.ProbeBound`).

## Model

| member | source | states |
|---|---|---|
| `Decimal.ValueOfFixed` | src/experiments.py:11 | reading back a zero-padded `%Y`/`%m`-style field gives the number it renders, whenever the number fits the width |
| `Decimal.FixedOfValue` | src/experiments.py:11 | every fixed-width digit field is the padded rendering of its own value, so parsing and formatting a field are mutually inverse |
| `Decimal.NatToString` | src/experiments.py:53 | `str(n)` is a digit string denoting `n` that starts with `0` exactly when `n` is 0 |
| `Decimal.NatToStringOfValue` | src/experiments.py:53 | every digit string without a superfluous leading zero is `str` of its value; `str` is a bijection onto those strings |
| `Timestamps.ParseExifDate` | src/experiments.py:19-23 | `try_parse_date` is total; a returned date's EXIF rendering is exactly the input text, so every field is the one written |
| `Timestamps.ParseExifText` | src/experiments.py:19-23 | round trip: the EXIF text of any valid date parses back to that date |
| `Timestamps.ParseExifDateIff` | src/experiments.py:19-23 | the parser returns date `t` if and only if the text is `t`'s EXIF rendering |
| `Timestamps.ParseExifDateNone` | src/experiments.py:19-23 | the parser returns `None` exactly for texts that are the rendering of no valid date, such as a wrong pattern or an out-of-range field |
| `Timestamps.ExifTextInjective` | src/experiments.py:11 | two dates with the same EXIF text are the same date |
| `Timestamps.ParseExample` | src/experiments.py:19-23 | `"2021:05:17 10:22:33"` parses to 2021-05-17 10:22:33 |
| `Timestamps.LeapDayExample` | src/experiments.py:19-23 | February 29 is accepted in 2024 and rejected (None, no failure) in 2023 |
| `ExifTags.DateFromTags` | src/experiments.py:25-31 | a date comes back exactly when the deciding tag (original time if present, else modification time) holds an EXIF date, and it is the date written there |
| `ExifTags.PrimaryTagDecides` | src/experiments.py:26-27 | with `EXIF DateTimeOriginal` present the result is its parse, and changing `Image DateTime` does not change it |
| `ExifTags.UnparsablePrimaryHidesSecondary` | src/experiments.py:26-27 | an unparsable `EXIF DateTimeOriginal` gives `None` even when `Image DateTime` holds a valid date |
| `ExifTags.SecondaryOnlyWithoutPrimary` | src/experiments.py:28-31 | without the primary tag the result is the parse of `Image DateTime`, and `None` when neither tag is present |
| `ExifTags.ImageDate` | src/experiments.py:70 | the date passed on is never `None`: it is the date in the deciding tag when that tag holds one, otherwise the OS modification time |
| `ExifTags.CameraMake` | src/experiments.py:71-73 | the make is the `Image Make` tag's value when that tag is present, and `"Unknown"` otherwise |
| `ExifTags.EitherTagAloneExample` | src/experiments.py:25-31 | either date tag alone with the same text yields the same date; no tags yields the modification time |
| `Paths.Join` | src/experiments.py:55 | a relative component is appended after at most one inserted backslash; an absolute one replaces everything but the first path's `X:` drive (UNC drives are not modelled) |
| `Paths.JoinCancel` | src/experiments.py:55 | joining one folder with two relative names gives the same path only for the same name |
| `Paths.Basename` | src/experiments.py:50 | the base name is a separator-free suffix of the path, preceded by a separator or by the drive or the path's start |
| `Paths.SplitExt` | src/experiments.py:54 | stem plus extension is the file name; the extension is empty or one dot-led segment; it is non-empty exactly when a dot follows some non-dot character |
| `Naming.StampName` | src/experiments.py:51 | the stamp is 15 characters `YYYYMMDD-HHMMSS`: its four-digit, then five two-digit fields read back as the date's year, month, day, hour, minute and second, with a dash between day and hour |
| `Naming.StampNameInjective` | src/experiments.py:51 | distinct dates give distinct stamps, down to the second |
| `Naming.AttemptSuffix` | src/experiments.py:52-53 | attempt 0 adds nothing; attempt n > 0 adds `_` followed by a canonical digit string whose value is n, which is `str(n)` |
| `Naming.OriginalPart` | src/experiments.py:54 | the tail is the file name with `_(` before it and `)` inserted before its extension: removing the brackets gives the file name back, and what follows `)` is the `splitext` extension |
| `Naming.AttemptSuffixInjective` | src/experiments.py:52-53 | distinct attempts get distinct suffixes |
| `Naming.EntryName` | src/experiments.py:50-54 | the name is the date's stamp, the attempt suffix, `_(`, the `splitext` stem, `)` and the extension; it starts with the stamp, has `_(` right after it exactly on attempt 0, and is a relative name |
| `Naming.EntryNameExample` | src/experiments.py:50-54 | attempt 12 for `IMG_1.jpg` taken 2021-05-17 10:22:33 is named `20210517-102233_12_(IMG_1).jpg` |
| `Naming.EntryNameInjective` | src/experiments.py:50-54 | names of different attempts of one photo differ |
| `Naming.CandidateInjective` | src/experiments.py:48-60 | the probe never visits the same path twice |
| `Naming.Folder` | src/experiments.py:45 | for a relative make the folder is the root, its glue, `str(year)`, a backslash and the make verbatim; an absolute make keeps only the root's `X:` drive (UNC drives are not modelled) |
| `Naming.Candidate` | src/experiments.py:50-55 | the probed path of attempt n is the folder, one backslash unless the folder already ends in a separator, then the entry name of attempt n |
| `Naming.CandidateInFolder` | src/experiments.py:45-55 | every probed path lies in the photo's folder and its file name starts with the photo's stamp |
| `Naming.LayoutExample` | src/experiments.py:45 | year 2023 and make Canon under `D:/Img/` give `D:/Img/2023\Canon` |
| `Library.Copy` | src/experiments.py:36-42 | after the copy the destination holds the source's bytes, one path is added, and every other file is unchanged |
| `Library.AttemptsInjective` | src/experiments.py:48-60 | the organiser's probe sequence is injective in the attempt counter |
| `Library.StopsAtUnique` | src/experiments.py:49-62 | the probe can end at only one attempt |
| `Library.PlacementUnique` | src/experiments.py:49-62 | the outcome is determined by the library and the photo (deterministic naming) |
| `Library.ProbedSize` | src/experiments.py:48-60 | the first n attempts visit n distinct paths |
| `Library.ProbeBound` | src/experiments.py:49-62 | every collision is a distinct existing file, so at most the library's size of them happen before the loop stops |
| `Library.FirstFit` | src/experiments.py:49-62 | the probe stops at an attempt no later than the library's size; every earlier attempt met a file with different content, and this one is free or identical |
| `Library.Probe` | src/experiments.py:49-62 | `Copied` names a path absent from the library; `Duplicate` names one already holding the same bytes; either is the probe's stopping point |
| `Library.SecondProbeIsDuplicate` | src/experiments.py:56-58 | probing again after the first outcome is committed yields `Duplicate` of the same path |
| `Library.Place` | src/experiments.py:44-62 | filing a photo never overwrites: a copy goes to a path absent from the library, and a duplicate is reported only for identical content |
| `Library.PlacedInFolder` | src/experiments.py:45-55 | the filed path lies in the photo's year/make folder and its name starts with the photo's stamp |
| `Library.CopyToLibrary` | src/experiments.py:44-63 | the loop as written reaches the probe's outcome; on `Copied` only the new path is added with the source's bytes, and on `Duplicate` nothing changes |
| `Library.AddToLibrary` | src/experiments.py:65-77 | the `ValueError` branch is never taken; the outcome is the placement of the photo under its resolved date and make; the library only grows by the copied path |
| `Library.AddTwiceIsDuplicate` | src/experiments.py:65-77 | processing the same file a second time reports a duplicate at the path of the first run and leaves the library as the first run left it |
| `Library.RepeatedRunsAddOnce` | src/experiments.py:65-77 | after any number n ≥ 1 of runs on the same file, the library is what one run produced |

## Left out

- EXIF decoding by `exifread.process_file` and opening the file (lines 68-69): a foreign library; its result is the tag map given as input.
- `get_date_from_os` (lines 33-34): converting the float modification time to local time is replaced by an input `DateTime`.
- Microseconds of a `datetime`: the model keeps whole seconds, the only precision the names use.
- `shutil.copy2` metadata and the Windows creation-time patch in `copy` (lines 38-42): platform I/O. Only "the destination holds the source's bytes" is kept.
- `filecmp.cmp` (line 57) is modelled as equality of contents in the map. Its stat-signature and non-regular-file cases do not arise in a map of contents.
- `os.makedirs` (lines 46-47): folders are implicit in the path strings.
- I/O failures (unreadable file, permission error, full disk) and the exceptions they raise: there is no I/O in the model.
- `walk_images`, the `desktop.ini` filter, the counters, progress printing, logging set-up and `__main__` (lines 79-105): traversal and console or log plumbing.
- The hard-coded roots `D:/Img/` and `D:/OneDrive/Immagini` (lines 45, 84): the library root is a parameter and the source tree is not modelled.
- Timestamps.ParseExifDate: accepts only the strict fixed-width pattern with ASCII digits and one space. Python's `strptime` also accepts one-digit month, day, hour, minute and second fields, a space-padded day (`"2021:05: 7 10:22:33"`), any run of whitespace for the space, and non-ASCII decimal digits. For such texts the model returns `None` where Python returns a date.
- Naming.StampName: renders the year as four zero-padded digits. What `strftime("%Y")` prints for years below 1000 depends on the platform.
- Paths.Join: only `X:` prefixes are drives. `ntpath` also reads a leading `\\server\share` or `//server/share` as a drive, which the model does not. A second component with a drive of its own, either `X:...` or a UNC share, replaces or merges the first path's drive in `ntpath.join`. The model treats an `X:` component as relative. For a component that starts with two separators, it keeps the first path's `X:` drive and appends the component after it. For a UNC first path, an absolute second component drops the share that `ntpath.join` keeps. Only a camera make, or a root other than the hard-wired one, could be like that.
- Paths.Basename: a path that is only a UNC share (`\\server\share`) yields `share`, while `ntpath.basename` yields the empty string. A file path always has a final component, so this does not arise.
- Library.CopyToLibrary: `Duplicate` carries the occupied destination path. The script's `FileAlreadyExistException` carries the source path.
- Camera makes are used verbatim, as in the script. An absolute make (one starting with a separator) makes the folder leave the library root.
- Naming.Folder: for an absolute make the folder is the root's `X:` drive followed by the make. This holds only when neither the root nor the make carries a UNC drive. A make such as `//nas/photos` gives `D://nas/photos` in the model, where `ntpath.join` gives `//nas/photos`. This follows from the `Paths.Join` line above.
- Library.Place: library paths are compared as exact strings. Windows path lookup behind `os.path.exists` (line 56) normalises paths. It ignores letter case, treats `/` and `\` alike, and drops trailing dots and spaces from each component. So makes such as `samsung` and `Samsung`, or `OLYMPUS IMAGING CORP.` and `OLYMPUS IMAGING CORP`, name the same folder there. The program then sees a collision the model does not. The model's "copied to an absent path" holds only for paths that still differ after that normalisation. The normalisation is file-system behaviour outside the model.
