# avi2mkv, modelled in Dafny

`avi2mkv.py` is a batch converter. It walks a directory tree and collects the
video files. For each video it finds the `.srt` subtitle files next to it and
derives a language token from each subtitle's name. It then builds one
`mkvmerge` command that muxes the video with all its subtitles into
`converted/<name>_.mkv`. It always creates `converted/` beside the video and,
depending on the outcome, `wrong_formatting/` or `no_subtitles/`. On success it
removes the video's directory, and with it the `converted/` output mkvmerge
has just written there (`Convert.OutputInsideRemoved`).

This project models that core:

- Discovery: `GetAllMovies` becomes the method `Discovery.GetAllMovies`. It is
  proved against the specification function `Discovery.Discovered`, which
  filters the files of the walk, in walk order, by `Discovery.IsMovieName`.
- The two language tables and their lookups: `language_short` and
  `language_coding` become functions in `Languages`.
- Subtitle discovery: `find_subtitles` is the method `Subtitles.FindSubtitles`.
  It is proved against `Subtitles.SubtitleFor`, which is stated over the files
  that match `glob`'s `base*.srt` pattern.
- The argument list: `create_command` is the method `Mux.CreateCommand`. It is
  proved against the layout predicate `Mux.IsMuxCommand`.
- The decisions of `convert_video`: `Convert.ConvertVideo` returns an `Outcome`
  record. The record holds:
  - the output name, the subtitles and the command;
  - the status tag;
  - the directories it ensures exist;
  - the directory it removes;
  - the returned flag.
- The batch driver: `analyze_path` is `Convert.AnalyzePath`. It is proved
  against `Convert.Converted`, the schedule of videos that are still files when
  their turn comes.

The Python library behaviour the core relies on is written out in two modules:

- `PyStrings` covers `str.find`, `str.lower`, `str.strip()`, `str.strip('.')`
  and slicing with negative and clamped bounds.
- `PosixPath` covers `os.path.join`, `dirname`, `basename` and `splitext`,
  including the `splitext` rule that leading dots are not an extension.

The world outside the program becomes parameters:

- the folders and file names `os.walk` yields;
- the entries `glob` reads in a directory;
- which paths are files before the batch starts;
- the exit code of each `mkvmerge` run.

Two properties proved here are worth knowing when reading the source:

- The rmtree guard in `convert_video` (line 227) is always true:
  `Convert.RemovalGuardAlwaysHolds`. `main_dir` is `dirname` with one more `/`
  appended, so the two strings are never equal, and a successful conversion
  always removes the video's directory. A later video of the same batch that lived in that directory is
  then no longer a file and is passed over. `Convert.Converted` models this.
- The display-name table has upper-case keys, so probing it with the
  lower-cased token never hits. `language_short` is therefore an exact,
  case-sensitive lookup (`Languages.LanguageShortIsExact`). The coding table
  has lower-case keys, so `language_coding` is case-insensitive
  (`Languages.LanguageCodingIgnoresCase`). The two-step lookup looks meant to
  make both case-insensitive. The model follows the code as written.

## Model

| member | source | states |
|---|---|---|
| `PyStrings.StartsWith` | avi2mkv.py:110 | `s.startswith(prefix)`: the prefix is no longer than `s` and equals its first characters |
| `PyStrings.EndsWith` | avi2mkv.py:162 | `s.endswith(suffix)`: the suffix is no longer than `s` and equals its last characters |
| `PyStrings.Find` | avi2mkv.py:112-118 | `find` returns -1 or an index where the pattern occurs, and the pattern occurs at no smaller index |
| `PyStrings.FindFindsContained` | avi2mkv.py:112-118 | `find(t) != -1` holds exactly when `t` is a substring |
| `PyStrings.LowerChar` | avi2mkv.py:140 | a lower-cased character is never an ASCII capital, and small letters are kept |
| `PyStrings.Lower` | avi2mkv.py:140 | `lang.lower()` applies the modelled one-character lower case to every character |
| `PyStrings.LowerHasNoCapitals` | avi2mkv.py:151 | the modelled `lower()` keeps the length, leaves no ASCII capital, and is the identity on small letters |
| `PyStrings.IsSpace` | avi2mkv.py:166 | the characters `str.isspace` accepts, the set `.strip()` removes without an argument |
| `PyStrings.StripRight` | avi2mkv.py:204 | removing trailing characters leaves a prefix, and everything removed was removable. The prefix does not end in a removable character |
| `PyStrings.Strip` | avi2mkv.py:166 | the stripped string is no longer than the input, and neither starts nor ends with a removable character |
| `PyStrings.StripKeepsMiddle` | avi2mkv.py:166 | the stripped string is a slice `s[i..j]` of the input, and every character cut before `i` or from `j` on is removable. With the edge clauses of `Strip` this fixes the result |
| `PyStrings.StripToEmpty` | avi2mkv.py:166-168 | stripping gives the empty string exactly when every character is removable |
| `PyStrings.SliceIndex` | avi2mkv.py:166 | a Python slice bound inside the range is kept, and a negative one counts from the end. The result never passes the end |
| `PyStrings.Slice` | avi2mkv.py:166 | `s[start:stop]` takes the characters between the two bounds as `SliceIndex` places them, and nothing when they cross |
| `PosixPath.RFind` | avi2mkv.py:213-214 | `rfind` returns -1 or an index holding the character, with no occurrence after it |
| `PosixPath.RFindIs` | avi2mkv.py:213-214 | the last occurrence of a character is where `rfind` finds it |
| `PosixPath.Join` | avi2mkv.py:113 | `os.path.join(folder, filename)`: the second part alone when it is absolute, else the two joined by one `/` unless the first is empty or already ends in `/` |
| `PosixPath.DirName` | avi2mkv.py:204 | `dirname` is a prefix of the path, and it ends in `/` only when it is all slashes |
| `PosixPath.BaseName` | avi2mkv.py:214 | `basename` is a suffix of the path without `/`, and it is the whole path or follows a `/`. This fixes it as the text after the last `/` |
| `PosixPath.DirNameThenBaseName` | avi2mkv.py:204-214 | the path is `dirname`, a run of slashes and `basename`, and the run is empty exactly when `dirname` is all slashes. With the contract of `DirName` this fixes `dirname` |
| `PosixPath.BaseNameAfterSlash` | avi2mkv.py:214-215 | after a string ending in `/`, a part without `/` is the whole `basename` |
| `PosixPath.SplitExt` | avi2mkv.py:213 | `splitext` cuts at the last dot when that dot lies after the last `/` and a non-dot precedes it in the file name, else returns the path and an empty extension |
| `PosixPath.SplitExtParts` | avi2mkv.py:213 | root and extension put together give the path. The extension is empty or a dot followed by neither dot nor slash, and the root's file name keeps a character that is not a dot. Conversely, the extension is empty only when no dot of the file name follows a non-dot |
| `PosixPath.DirNameOfRoot` | avi2mkv.py:213-227 | the root from `splitext` lies in the same directory as the path |
| `PosixPath.BaseNameOfRoot` | avi2mkv.py:213-214 | the root's file name followed by the extension is the path's file name |
| `Discovery.IsMovieName` | avi2mkv.py:110-119 | the `if`/`elif` test on a file name: not hidden, and `find` locates one of `.mkv`, `.avi`, `.mp4`, `.m4v` |
| `Discovery.VideoExtensions` | avi2mkv.py:112-118 | the four extensions the `elif` chain probes, in its order: `.mkv`, `.avi`, `.mp4`, `.m4v` |
| `Discovery.PathOf` | avi2mkv.py:113 | the path recorded for a file: `os.path.join(folder, filename)` |
| `Discovery.Entries` | avi2mkv.py:108-109 | the files of every folder `os.walk` yields, folder by folder and in each folder's order |
| `Discovery.Kept` | avi2mkv.py:109-119 | the joined paths of the entries whose names pass `IsMovieName`, in entry order |
| `Discovery.Discovered` | avi2mkv.py:108-119 | the joined paths of the files of the walk that pass `IsMovieName`, folder by folder in walk order |
| `Discovery.GetAllMovies` | avi2mkv.py:102-121 | the result is the path of every file of the walk that passes the name test, in walk order |
| `Discovery.KeptAppend` | avi2mkv.py:108-119 | the kept paths of two runs of files put together are the kept paths of each, in order |
| `Discovery.IsMovieNameIff` | avi2mkv.py:110-119 | a name is kept exactly when it does not start with a dot and one of the four extensions occurs in it anywhere |
| `Discovery.ExtensionAnywhereCounts` | avi2mkv.py:112-119 | `x.avifoo` and `notavi.txt.avifoo` are kept: the test is a substring test, not a suffix test |
| `Discovery.HiddenNeverCounts` | avi2mkv.py:110 | a name starting with a dot is never kept, whatever extension it carries |
| `Discovery.UpperCaseDoesNotCount` | avi2mkv.py:112-119 | the test is case-sensitive: a name without small letters is never kept |
| `Discovery.SubtitleDoesNotCount` | avi2mkv.py:112-119 | a subtitle file whose only dot starts `.srt` is not kept |
| `Discovery.RankGrows` | avi2mkv.py:108-119 | kept paths keep the order of their files: a later kept file gets a later slot |
| `Discovery.KeptAt` | avi2mkv.py:108-119 | every kept file's path is in the result, at the file's slot |
| `Discovery.KeptFrom` | avi2mkv.py:108-119 | every path in the result comes from a kept file whose slot it occupies |
| `Discovery.KeptLength` | avi2mkv.py:108-121 | the result is exactly as long as the set of positions of files whose names pass the test |
| `Discovery.KeptMembership` | avi2mkv.py:108-121 | a path is in the result exactly when a kept file has that path |
| `Discovery.DiscoveredMembership` | avi2mkv.py:102-121 | a path is discovered exactly when some file of the walk passes the test and has that path |
| `Discovery.EntryOfFile` | avi2mkv.py:108-109 | file `j` of folder `i` is met right after all the files of the earlier folders |
| `Languages.Get` | avi2mkv.py:140 | `dict.get(key, None)` finds the key's value when the key is present and `None` otherwise |
| `Languages.Names` | avi2mkv.py:139 | the display-name table: `SK`, `ENG`, `DE`, `CZ` to Slovak, English, German, Czech, keyed in upper case |
| `Languages.Codings` | avi2mkv.py:150 | the character-set table: `sk`, `cz` to CP1250 and `eng`, `de` to UTF-8, keyed in lower case |
| `Languages.LowerThenExact` | avi2mkv.py:140-143 | the two-step lookup both functions use (lines 140-143 and 151-154): probe with the lower-cased token; only when that misses, probe with the token as given |
| `Languages.LanguageShort` | avi2mkv.py:139-145 | `language_short`: the lower-cased token is looked up in the display-name table, then the token as given |
| `Languages.LanguageCoding` | avi2mkv.py:150-156 | `language_coding`: the same two-step lookup in the coding table |
| `Languages.LanguageShortIsExact` | avi2mkv.py:139-145 | `language_short` is the exact lookup of the token in the display-name table |
| `Languages.LanguageCodingIgnoresCase` | avi2mkv.py:150-156 | `language_coding` is the lookup of the lower-cased token in the coding table |
| `Languages.LanguageCodingCaseInsensitive` | avi2mkv.py:150-156 | two spellings that lower-case alike get the same character set |
| `Languages.LanguageShortOfKnownCodes` | avi2mkv.py:139 | `SK`, `ENG`, `DE` and `CZ` name Slovak, English, German and Czech |
| `Languages.LanguageShortMisses` | avi2mkv.py:139-145 | every other token, lower-case codes included, has no display name |
| `Languages.LanguageCodingValues` | avi2mkv.py:150-156 | `sk` and `cz` in any case give CP1250, `eng` and `de` give UTF-8, and every other token gives `None` |
| `Languages.LanguageCodingExamples` | avi2mkv.py:139-156 | `eng` has no display name, while `Eng`, `cZ` and `S` + KELVIN SIGN get a character set. `fr` gets none |
| `Subtitles.MatchesSrtGlob` | avi2mkv.py:162 | an entry matches `base*.srt`: it is the base, then text without `/`, then `.srt`, and it is not hidden unless the base's file name is |
| `Subtitles.GlobSrt` | avi2mkv.py:162 | `glob(base + '*.srt')` returns exactly the directory entries that match the pattern |
| `Subtitles.RawToken` | avi2mkv.py:166 | `filename[len(path):-4]`, through Python's slice rules |
| `Subtitles.SubtitleFor` | avi2mkv.py:168-172 | the triple due to one matching file: the file itself, with English and `ENG` when its token is empty, else the token's display name and the token |
| `Subtitles.SubtitlesFound` | avi2mkv.py:162-172 | the subtitles hold one triple per file matching `base*.srt`, in the order of the matches, each as `SubtitleFor` says |
| `Subtitles.SubtitleOf` | avi2mkv.py:168-172 | the triple the loop body builds: `language_short("ENG")` and `ENG` for an empty token, else `language_short(token)` and the token, then the file |
| `Subtitles.Token` | avi2mkv.py:166 | the raw token, stripped of whitespace and then of dots |
| `Subtitles.FindSubtitles` | avi2mkv.py:159-176 | one triple per matching file, in match order. The triple holds the display name and the token, or English and `ENG` when the token is empty, and the file |
| `Subtitles.ComputedTriplesAreFound` | avi2mkv.py:165-172 | the triples built by the loop body are the ones the specification describes |
| `Subtitles.RawTokenOfMatch` | avi2mkv.py:162-166 | for a matching file, the raw token is exactly the text between the base and `.srt` |
| `Subtitles.TokenHasNoEdgeDots` | avi2mkv.py:166 | a non-empty token neither starts nor ends with a dot |
| `Subtitles.TokenEmpty` | avi2mkv.py:166-168 | the token is empty exactly when the raw token, stripped of whitespace, is all dots |
| `Subtitles.NoTokenMeansEnglish` | avi2mkv.py:168-170 | a subtitle named `<base>.srt` gets English and `ENG` |
| `Subtitles.TokenExamples` | avi2mkv.py:166 | `.ENG.srt` gives `ENG` and `.srt` gives the empty token. `. eng ..srt` gives ` eng `, because whitespace is stripped before dots |
| `Mux.Render` | avi2mkv.py:189-193 | `'%s' % v` for a looked-up value: the value itself, or the text `None` when the lookup failed |
| `Mux.Group` | avi2mkv.py:188-194 | the seven arguments for one subtitle: `--language 0:<name>`, `--sub-charset 0:<coding of token>`, `--track-name 0:<token>`, the file |
| `Mux.IsMuxCommand` | avi2mkv.py:181-194 | the command layout: `mkvmerge -o <output> <input>` followed by the groups of the subtitles in order |
| `Mux.CreateCommand` | avi2mkv.py:179-197 | the command is `mkvmerge -o <output> <input>`, then the seven-argument group of each subtitle, in order |
| `Mux.AppendGroup` | avi2mkv.py:187-194 | appending one subtitle's group extends a valid command by that subtitle |
| `Mux.MuxCommandIsUnique` | avi2mkv.py:181-194 | the layout determines the command completely |
| `Mux.EveryGroupTargetsTrackZero` | avi2mkv.py:187-194 | every group is `--language 0:… --sub-charset 0:… --track-name 0:<token> <file>`, always for track 0 |
| `Mux.UnresolvedBecomesNone` | avi2mkv.py:189-191 | an unknown display name or character set reaches the command as `0:None` |
| `Mux.CommandWithoutSubtitles` | avi2mkv.py:181-184 | without subtitles the command is the four-argument prefix |
| `Mux.CommandForOneEnglishSubtitle` | avi2mkv.py:179-197 | the full command for `/m/a.avi` with the subtitle `/m/a.ENG.srt` |
| `Convert.Outcome` | avi2mkv.py:200-246 | what one call of `convert_video` decides: output name, subtitles, command, status tag, directories made, directory removed, returned flag |
| `Convert.ConvertVideo` | avi2mkv.py:200-246 | the output name and subtitles, and the command for them. `SKIP` without subtitles, else `DONE` or `ERRR` by exit code. The directories ensured per tag, the removal exactly on `DONE`, and the result `exit == 0` |
| `Convert.MainDir` | avi2mkv.py:204 | `main_dir`: `dirname(path)` followed by `/` |
| `Convert.OutputName` | avi2mkv.py:204-215 | `dirname(path) + '/converted/' + basename(splitext(path)[0]) + '_.mkv'` |
| `Convert.RemovalGuardAlwaysHolds` | avi2mkv.py:204-228 | the directory of the path without extension never equals `main_dir`, so the rmtree guard always passes |
| `Convert.OutputNameParts` | avi2mkv.py:204-215 | the output lies in `converted/` beside the video and is named `<file name without extension>_.mkv` |
| `Convert.OutputInsideRemoved` | avi2mkv.py:205-228 | the output file lies inside the directory that a `DONE` conversion removes, so the success path deletes what mkvmerge wrote |
| `Convert.OutputNameExample` | avi2mkv.py:204-215 | `/m/a.avi` is converted to `/m/converted/a_.mkv` |
| `Convert.SplitExtExample` | avi2mkv.py:213 | `splitext('/m/a.avi')` is `('/m/a', '.avi')` |
| `Convert.DirNameExample` | avi2mkv.py:204 | `dirname('/m/a.avi')` is `/m` |
| `Convert.BaseNameExample` | avi2mkv.py:214 | `basename('/m/a')` is `a` |
| `Convert.Inside` | avi2mkv.py:228 | `p` lies below the directory `d`: `d` is a proper prefix of `p` that ends in `/` or is followed by `/` in `p` |
| `Convert.InsideAny` | avi2mkv.py:130 | `p` lies below one of the directories removed so far, so `os.path.isfile(p)` no longer holds |
| `Convert.RemovesDirectory` | avi2mkv.py:220-228 | converting `p` removes its directory exactly when subtitles were found and mkvmerge exits with 0, the guard of line 227 always passing |
| `Convert.RemovedDirs` | avi2mkv.py:227-228 | the directories removed by a run of conversions, one per conversion that removes, in order |
| `Convert.Reports` | avi2mkv.py:131 | what one call of `convert_video` in the batch yields: its output name, the subtitles found in its directory, and whether mkvmerge exited with 0 |
| `Convert.Converted` | avi2mkv.py:127-131 | the videos converted, in order: each discovered path that is a file and lies in no directory an earlier conversion removed |
| `Convert.ConvertedInOrder` | avi2mkv.py:127-131 | the converted videos are a subsequence of the discovered ones, in discovery order |
| `Convert.ConvertedAppend` | avi2mkv.py:127-131 | converting a run of videos and then more is converting the first run, then the rest once the directories removed during the first run are gone |
| `Convert.ConvertedDecision` | avi2mkv.py:127-131 | the `i`-th video is converted exactly when it is a file and lies in no directory removed by converting one of the videos before it |
| `Convert.ConvertedPrefix` | avi2mkv.py:127-131 | videos later in the list never change what is converted before them |
| `Convert.NoRemovalConvertsEveryFile` | avi2mkv.py:127-131 | when no conversion removes a directory, exactly the discovered files are converted, in order |
| `Convert.ConvertedStep` | avi2mkv.py:127-131 | one step of the batch: the next video is converted, recording its removal, or it is passed over |
| `Convert.AnalyzePath` | avi2mkv.py:124-133 | the videos converted are the discovered ones still present as files when their turn comes, in order. One outcome each, with its output name, subtitles and result |

## Left out

- Logging, the coloured status lines (`write_text`), `str(subs)` printing,
  option parsing, the Tk dialog, `check_mkvmerge`, `show_authors` and `main`
  are I/O around the core and are not modelled.
- The file system is not touched. `os.walk`, `glob`'s directory read and
  `os.path.isfile` become parameters. `os.makedirs` and `shutil.rmtree` are
  recorded in the outcome as directories ensured and removed.
- `os.path.exists` guards are not modelled. `ensured` lists every directory
  the source creates when it is missing.
- `subprocess.call` becomes the exit-code parameter. Running `mkvmerge`, its
  output and a hung process are not modelled.
- `os.path.abspath` in `GetAllMovies` is not modelled. The walk's folder
  paths are taken to be absolute and normalised already, so the recorded path
  is `os.path.join(folder, filename)`.
- `glob` is modelled for a base without glob magic characters (`*`, `?`,
  `[`), on the entries of one directory, in the order given. Python's `glob`
  order is the directory order, which is not fixed.
- `str.lower` is modelled for ASCII and the KELVIN SIGN only. Those are the
  characters whose lower case can equal the ASCII table keys. Other
  characters are kept unchanged.
- `is not -1` and `is not 0` in the source compare identities. The model
  reads them as `!=`, which is what CPython's cached small integers give.
- The unused `counter` and `REMOVE_INPUT` variables, the unused `type`
  argument of `create_command`, and the commented-out `shutil.move` are left
  out.
- Exceptions are not modelled. Examples are `rmtree` failing, or
  `makedirs` racing with another process.
- `PyStrings.Strip`: its own ensures state the bound and the edges. That the
  result is the middle slice with only removable characters cut is
  `PyStrings.StripKeepsMiddle`.
- `PosixPath.DirName`: its own ensures state that it is a prefix that ends in
  `/` only when all slashes. Its full value, relative to `basename`, is
  `PosixPath.DirNameThenBaseName`.
- `Convert.AnalyzePath`: the ensures give each outcome's output name,
  subtitles and result, not its command, tag or directories. Those follow
  per call from `Convert.ConvertVideo`. The constant `True` that
  `analyze_path` returns is not modelled.
- `Convert.AnalyzePath`: `isFile` describes the tree before the batch. The
  only later change modelled is removal by an earlier conversion. The muxed
  files written into `converted/` are not in the discovery list, because that
  list is computed before the batch starts.
