# camera-uploads in Dafny

camera-uploads is a pair of Ruby scripts that move photos off camera SD cards
into a dated archive.

`upload-photos.rb` walks every mounted card with `Find.find`. It skips every
directory whose name starts with a dot, together with everything under it.
It collects each regular file whose `File.extname` matches
`/\.(jpe?g|png|mov|mp4|avi|gif)$/i`. Then it hands the collected list to
`rename-photos.rb`.

`rename-photos.rb` first checks that `PHOTO_DIR` is a directory. It takes
the photos from the command line, or from `UPLOAD_DIR` when there are none.
For each photo it:

- finds the capture date in the output of `sips -g creation`, falling back
  to the modification time;
- makes `PHOTO_DIR/YYYY/YYYY-MM-DD` when it is missing;
- moves the photo there as `YYYY-MM-DD HH.MM.SS` plus the downcased
  extension, with `a`, `b`, … appended to the timestamp while that name is
  taken.

The model, module by module:

- `Wrappers`: `Option`.
- `Text`: decimal digits and strftime's zero padding, ASCII case folding,
  and Ruby's `\s`.
- `Paths`: `File.join`, `File.basename` and `File.extname` on string paths.
- `PhotoDates`: `photo_date` as a total function of the `sips` output and
  the modification time.
- `Naming`: `DATE_SUBDIR`, `FILE_FORMAT`, `make_path`, and the candidate
  names of the collision search.
- `FileSystems`: a `Disk` value (a set of regular files and a set of
  directories), and a `FileSystem` class over the same two sets whose methods
  are `mkdir_p` and `mv`.
- `RenamePhotos`: the run as functions on `Disk` (`SearchFrom`,
  `MakeOutDir`, `Process`, `ProcessAll`, `Rename`). The methods
  `FindFreeName`, `ArchivePhoto` and `RenamePhotos` run the script's loops
  on a `FileSystem` and are proved equal to those functions.
- `UploadPhotos`: a card as a tree of entries, the walk `Walk` and a
  reference traversal `Traverse` proved to agree, and the methods `ScanCard`
  (the `ps` list that `Find.find` works through), `ScanCards` and
  `UploadPhotos`.

The answers of `sips` and `File.mtime` are inputs of the model: `Rename` and
`RenamePhotos` take them as functions of the photo's path. `File.executable?`
is a boolean input of `UploadPhotos`. Each card comes as the path the volume
glob gave for it and the tree found there.

The suffix search does not stop at `z`: `suffix = (suffix.ord+1).chr`
(rename-photos.rb:83) goes on through the character codes and raises
`RangeError` past 255. That update runs before
the name with suffix code 255 is tried. So the search tries the bare
timestamp and then suffix codes 97 to 254, 159 names in all (`LastCandidate`
is 158). When every one of them is taken, the uncaught exception ends the
run (`SuffixOutOfRange`).

## Model

| member | source | states |
|---|---|---|
| Text.PadValue | rename-photos.rb:18-19 | reading a zero-padded number back gives the number |
| Text.PadLength | rename-photos.rb:18-19 | a number below 10^w padded to width w has exactly w digits |
| Text.PadOfDigits | rename-photos.rb:18-19 | padding the value of a digit string to its own length gives the string back |
| Text.PadInjective | rename-photos.rb:18-19 | different numbers are padded to different strings |
| Text.Lower | rename-photos.rb:45 | `downcase` keeps the length and maps each character with the ASCII folding |
| Text.LowerIsLower | rename-photos.rb:45 | no upper-case letter is left, and downcasing twice is downcasing once |
| Text.Pad | rename-photos.rb:18-19 | strftime's zero padding: only digits, at least one, and at least the width |
| Text.SkipSpaces | rename-photos.rb:35 | `\s*` strips the longest prefix of white space: every stripped character is white space and what is left does not start with any |
| Paths.LastComponent | upload-photos.rb:34 | `File.basename` as the text after the last '/'; its properties are `LastComponentParts` |
| Paths.Join | upload-photos.rb:33 | the `File.join` of a directory and an entry name by which `Find.find` forms the paths it yields; its properties are `JoinParts` and `JoinLastComponent` |
| Paths.JoinLastComponent | upload-photos.rb:33-34 | the basename of a joined path is the entry's name |
| Paths.LastComponentParts | upload-photos.rb:34 | the basename is the longest tail without '/', preceded by '/' when shorter than the path |
| Paths.FromLastDotParts | rename-photos.rb:70 | the tail from the last dot holds exactly one dot, at its start, and is empty only when there is no dot |
| Paths.FromLastDotOf | rename-photos.rb:70 | the extension of `a.b`, with no dot in `b`, is `.b` |
| Paths.SkipDotsParts | rename-photos.rb:70 | removing leading dots removes only dots, and leaves a tail that does not start with a dot |
| Paths.ExtName | rename-photos.rb:70 | `File.extname`: the basename's tail from its last dot, leading dots skipped; its properties are `ExtNameParts` and `ExtNameIsTail` |
| Paths.ExtNameParts | rename-photos.rb:70 | `File.extname` is empty or a dot followed by no further dot; it is a tail of the basename, empty exactly when no dot follows the leading dots, and preceded by some character that is not a dot when not empty |
| Paths.ExtNameIsTail | upload-photos.rb:36 | `File.extname` is a tail of the whole path |
| PhotoDates.Chomp | rename-photos.rb:30 | `chomp` removes a final "\r\n", "\n" or "\r" (the pair as a whole) and nothing else, and keeps text with no final line break as it is |
| PhotoDates.Lines | rename-photos.rb:30 | `chomp.split(/\n/)`; its properties are `SplitNewlines`, `JoinSplit` and `DropTrailingEmpty` |
| PhotoDates.SecondLine | rename-photos.rb:30 | `[1]` of those lines, `nil` for a failed call or fewer than two lines; its properties are `SecondLineOfReport` |
| PhotoDates.HasErrorMarker | rename-photos.rb:31 | `=~ /error\|<nil>/i`; its properties are `CreationLineHasNoMarker` and `PhotoDateFallsBack` |
| PhotoDates.StripCreation | rename-photos.rb:35 | `sub(/^\s*creation:\s*/, '')`; its properties are `StripAfterLabel` and `StripLabel` |
| PhotoDates.SplitNewlines | rename-photos.rb:30 | splitting gives at least one field, and no field holds a newline |
| PhotoDates.JoinSplit | rename-photos.rb:30 | joining the fields with newlines gives the text back |
| PhotoDates.DropTrailingEmpty | rename-photos.rb:30 | `split` drops the empty fields at the end and keeps the rest |
| PhotoDates.SecondLineOfReport | rename-photos.rb:30 | for a two-line `sips` report, `split(/\n/)[1]` is the second line |
| PhotoDates.ParseStamp | rename-photos.rb:36 | `strptime` succeeds exactly on the `DDDD:DD:DD DD:DD:DD` layout, with a year below 10000 |
| PhotoDates.StampRoundTrip | rename-photos.rb:36 | parsing a formatted date gives the date back |
| PhotoDates.StampCanonical | rename-photos.rb:36 | formatting a parsed stamp gives the stamp back |
| PhotoDates.StripAfterLabel | rename-photos.rb:35 | after the label `creation:`, `sub` keeps the rest minus its leading white space |
| PhotoDates.StripLabel | rename-photos.rb:35 | `sub(/^\s*creation:\s*/, '')` turns `  creation: <stamp>` into the stamp |
| PhotoDates.PhotoDate | rename-photos.rb:29-41 | `photo_date` is total: the file's mtime, or a parsed date with a four-digit year |
| PhotoDates.PhotoDateFallsBack | rename-photos.rb:31-33 | a second line that matches `/error\|<nil>/i`, or after stripping is no stamp, gives the mtime |
| PhotoDates.CreationLineHasNoMarker | rename-photos.rb:31 | no real creation line contains "error" or "<nil>" in any case |
| PhotoDates.CreationLineIsOneLine | rename-photos.rb:30 | a creation line holds no newline and does not end in '\r' |
| PhotoDates.CreationLineParses | rename-photos.rb:31-36 | a creation line shows no marker, and the stamp stripped from it parses to the date shown |
| PhotoDates.PhotoDateReadsCreation | rename-photos.rb:29-37 | for a report of the shape `sips` prints, `photo_date` returns the date the report shows |
| Naming.DateSubdir | rename-photos.rb:18 | `DATE_SUBDIR` formatted; its properties are `NamesOfOneShot` and `SameDirSameDay` |
| Naming.FileName | rename-photos.rb:19 | `FILE_FORMAT` formatted; its properties are `NamesOfOneShot` and `SameNameSameSecond` |
| Naming.OutDir | rename-photos.rb:73-74 | `"#{PHOTO_DIR}/#{subdir}"`; its properties are `YearDir` and `SameDirSameDay` |
| Naming.YearDir | rename-photos.rb:75 | the year directory `mkdir_p` makes is a proper prefix of the output directory, followed by '/' |
| Naming.NamesOfOneShot | rename-photos.rb:18-19 | 2024-03-05 14:30:00 gives the directory `2024/2024-03-05` and the name `2024-03-05 14.30.00` |
| Naming.PaddedYear | rename-photos.rb:18 | `%Y` prints 2024 as "2024" |
| Naming.PaddedFields | rename-photos.rb:19 | `%m`, `%d`, `%H`, `%M`, `%S` print sample values (3, 5, 14, 30, 0) in two digits; the general fact is `Text.PadLength` |
| Naming.DayStampSame | rename-photos.rb:18-19 | the `%Y-%m-%d` stamp determines year, month and day |
| Naming.TimeStampSame | rename-photos.rb:19 | the `%H.%M.%S` stamp is eight characters and determines hour, minute and second |
| Naming.SameDirSameDay | rename-photos.rb:73-74 | two dates share an output directory exactly when they fall on the same day |
| Naming.SameNameSameSecond | rename-photos.rb:78 | two dates share a base name exactly when they are the same second |
| Naming.MakePath | rename-photos.rb:44-46 | `make_path`; its properties are `MakePathParts` and `MakePathFoldsCase` |
| Naming.MakePathParts | rename-photos.rb:44-46 | `make_path` is the directory, '/', the name and the extension ignoring case, with no upper-case letter in the extension |
| Naming.MakePathFoldsCase | rename-photos.rb:44-46 | two extensions give the same path exactly when they agree ignoring case |
| Naming.SuffixChar | rename-photos.rb:80-83 | the suffixes run from 'a' up to code 254 |
| Naming.Candidate | rename-photos.rb:78-84 | the k-th path the search tries: the bare timestamp for k = 0, else the timestamp and suffix `SuffixChar(k)`; its properties are `CandidatesDistinct` and `CandidateIsNotMadeDir` |
| Naming.CandidatesDistinct | rename-photos.rb:78-85 | no two steps of the search try the same path |
| FileSystems.Disk.Occupied | rename-photos.rb:81-88 | `File.exists?` on a snapshot: a regular file or a directory is at the path |
| FileSystems.FileSystem.IsFile | rename-photos.rb:63 | `File.file?`: the path is a regular file |
| FileSystems.FileSystem.IsDirectory | rename-photos.rb:75 | `File.directory?`, used for the day's directory here and for `PHOTO_DIR` at rename-photos.rb:49: the path is a directory |
| FileSystems.FileSystem.Exists | rename-photos.rb:81-88 | `File.exists?` in the search loop and the `abort` guard: `Occupied` of the current snapshot |
| FileSystems.FileSystem.constructor | rename-photos.rb:63-89 | the filesystem that `File.file?`, `File.directory?`, `File.exists?`, `mkdir_p` and `mv` act on starts with the given files and directories, kept apart |
| FileSystems.FileSystem.MakeDirs | rename-photos.rb:75 | `mkdir_p` fails, changing nothing, when a directory to make is a regular file, and otherwise adds them all |
| FileSystems.FileSystem.Move | rename-photos.rb:89 | `mv` onto a free path moves the file and changes nothing else; the number of files is kept |
| RenamePhotos.SearchFrom | rename-photos.rb:78-85 | the search returns a free candidate with every earlier one taken, or runs out with all taken |
| RenamePhotos.SearchFindsFirstFree | rename-photos.rb:78-85 | the first free candidate is the one the search returns |
| RenamePhotos.CandidateSetSize | rename-photos.rb:78-85 | the first n candidates are n distinct paths |
| RenamePhotos.CandidateSetMembers | rename-photos.rb:78-85 | the candidate set holds only the first n candidates |
| RenamePhotos.SearchSucceedsWhenFewPathsTaken | rename-photos.rb:78-85 | with at most 158 paths on disk the search never runs out of suffixes |
| RenamePhotos.MakeOutDir | rename-photos.rb:73-75 | the day's directory exists afterwards; nothing changes when it already existed, and otherwise exactly it and its year directory are added; failure exactly when the day's directory is missing and it or its year directory is a regular file |
| RenamePhotos.Process | rename-photos.rb:62-89 | one pass of the loop body; its properties are `MissingPhotoIsSkipped`, `MovedToFirstFreeName`, `MovedToFreeCandidate`, `MoveChangesOnlyThePhoto` and `ProcessKeepsValid` |
| RenamePhotos.ProcessAll | rename-photos.rb:62-100 | the loop, stopping at the first uncaught exception; its properties are `RunContinuesAfterMissing`, `RunKeepsFileCount`, `RunOnlyAddsDirectories` and `ShotsOfOneSecond` |
| RenamePhotos.Rename | rename-photos.rb:49-100 | the script; its properties are `RenameNeedsPhotoDir`, `ArgvBeforeStaged` and `ShotsOfOneSecond` |
| RenamePhotos.FindFreeName | rename-photos.rb:77-85 | the `while File.exists?` loop computes `SearchFrom`, and the path it returns is free |
| RenamePhotos.ArchivePhoto | rename-photos.rb:62-89 | one pass of the loop body does to the filesystem what `Process` says, and keeps files and directories apart |
| RenamePhotos.RenamePhotos | rename-photos.rb:49-100 | the whole script does to the filesystem what `Rename` says, with the same printed lines and ending |
| RenamePhotos.MissingPhotoIsSkipped | rename-photos.rb:63-66 | a path that is not a regular file is reported missing, and the filesystem is unchanged |
| RenamePhotos.RunContinuesAfterMissing | rename-photos.rb:62-66 | after a missing photo the run goes on with the next one |
| RenamePhotos.RenameNeedsPhotoDir | rename-photos.rb:49 | without `PHOTO_DIR` the run aborts before any photo is looked at, and nothing changes |
| RenamePhotos.ArgvBeforeStaged | rename-photos.rb:52-57 | photos named on the command line are processed, and `UPLOAD_DIR` is read only when there are none |
| RenamePhotos.CandidateIsNotMadeDir | rename-photos.rb:74-85 | no candidate is the year or day directory `mkdir_p` makes |
| RenamePhotos.MadeDirsAreNoCandidates | rename-photos.rb:75-85 | making the day's directories does not change which candidates are taken |
| RenamePhotos.MovedToFirstFreeName | rename-photos.rb:78-89 | a moved photo goes to a candidate that was free before the step and whose earlier candidates were all taken, so nothing is overwritten and the `abort "File exists somehow"` guard never fires |
| RenamePhotos.MovedToFreeCandidate | rename-photos.rb:73-89 | conversely, a photo whose k-th candidate is the first free one is moved to it |
| RenamePhotos.MoveChangesOnlyThePhoto | rename-photos.rb:73-89 | after a move the day's directory exists, no directory is lost, and the files change only by the move (not at all under `TEST`) |
| RenamePhotos.ExistingOutDirIsReused | rename-photos.rb:75 | when the day's directory exists, no directory is made |
| RenamePhotos.ProcessKeepsValid | rename-photos.rb:62-89 | a step keeps files and directories apart |
| RenamePhotos.MoveKeepsSize | rename-photos.rb:89 | replacing one member of a set by a new one keeps its size |
| RenamePhotos.ProcessKeepsFileCount | rename-photos.rb:89 | a step never changes the number of regular files |
| RenamePhotos.RunKeepsFileCount | rename-photos.rb:62-100 | a run never changes the number of regular files |
| RenamePhotos.TestRunMovesNothing | rename-photos.rb:89 | with `TEST` set, the set of files never changes |
| RenamePhotos.RunOnlyAddsDirectories | rename-photos.rb:62-100 | a run never removes a directory |
| RenamePhotos.FirstPngCandidate | rename-photos.rb:78-79 | the first candidate for a `.png` photo, in any case, is the timestamp plus `.png` |
| RenamePhotos.SecondPngIsNext | rename-photos.rb:82-84 | the second candidate is the timestamp plus `a.png` |
| RenamePhotos.FirstShotOfTheDay | rename-photos.rb:73-89 | the first shot of a new day makes the day's directories and takes the bare name |
| RenamePhotos.SecondShotOfTheSecond | rename-photos.rb:77-89 | a second shot of the same second takes the name with suffix `a` |
| RenamePhotos.CandidateFoldsCase | rename-photos.rb:45 | candidates depend on the extension only up to case |
| RenamePhotos.BatchStep | rename-photos.rb:73-89 | a photo whose first k candidates are taken and whose k-th is free is moved to the k-th |
| RenamePhotos.ProcessAllChain | rename-photos.rb:62-100 | a run whose every step logs an event goes through them all, logs them in order and finishes |
| RenamePhotos.BatchStepAt | rename-photos.rb:62-89 | in a batch of shots of one second, the i-th photo goes from the disk with i moves done to the i-th candidate |
| RenamePhotos.BatchRun | rename-photos.rb:62-100 | the loop over such a batch logs the i-th photo moved to the i-th candidate and finishes |
| RenamePhotos.ShotsOfOneSecond | rename-photos.rb:49-100 | up to 159 distinct shots of one second with one extension up to case, whose day directory exists or can be made and whose first candidates are free: the i-th is moved to candidate i (bare name, then suffixes `a`, `b`, …), the run finishes, the photos are replaced by those candidates, and only the day's directories are added |
| RenamePhotos.PngCandidates | rename-photos.rb:78-84 | the first two `.png` candidates are `… HH.MM.SS.png` and `… HH.MM.SSa.png` |
| RenamePhotos.SameSecondShots | rename-photos.rb:62-100 | two `.png` shots of the same second, in input order, become `… HH.MM.SS.png` and `… HH.MM.SSa.png`, whether or not the day's directory exists yet, and nothing else changes |
| UploadPhotos.MatchesPhotoExp | upload-photos.rb:17-18 | `=~ photo_exp` as a search from every position; its properties are `NoDotNoMatch`, `SomeWordAtEnd` and `ExtNameMatchesIffPhotoExtension` |
| UploadPhotos.NoDotNoMatch | upload-photos.rb:18 | with no dot left, the regex finds no match |
| UploadPhotos.SomeWordAtEnd | upload-photos.rb:18 | with no line break, `$` matches only at the end, so an alternative matches exactly when it is the rest of the string ignoring case |
| UploadPhotos.DotWords | upload-photos.rb:17 | the photo extensions are the alternatives of `PHOTO_EXT`, each after a dot |
| UploadPhotos.ExtNameMatchesIffPhotoExtension | upload-photos.rb:17-18 | for a path without line breaks, the extension matches `photo_exp` exactly when it is `.jpg .jpeg .png .mov .mp4 .avi .gif` ignoring case |
| UploadPhotos.LineBreakAfterExtensionMatches | upload-photos.rb:18 | `IMG.jpg` followed by a line break and more text still matches, although its extension is none of the seven |
| UploadPhotos.SelectMembers | upload-photos.rb:36-37 | a path is selected exactly when some collectable node has it |
| UploadPhotos.SelectAppend | upload-photos.rb:37 | selection distributes over concatenation |
| UploadPhotos.HiddenStaysHidden | upload-photos.rb:34-35 | every node below a pruned directory is hidden |
| UploadPhotos.VisitExtensions | upload-photos.rb:36 | each visited node records the extension of its own path |
| UploadPhotos.SelectNothingHidden | upload-photos.rb:34-35 | nothing hidden is collected |
| UploadPhotos.IsPruned | upload-photos.rb:34-35 | the `if`: a directory whose basename starts with a dot, pruned with all below it |
| UploadPhotos.IsPhotoFile | upload-photos.rb:36-37 | the `elsif`: a regular file whose `File.extname` matches `photo_exp`, appended to `photo_files` |
| UploadPhotos.Walk | upload-photos.rb:33-39 | the paths `Find.find` collects from one card; its properties are `WalkIsSelection` and `WalkCollectsExactly` |
| UploadPhotos.WalkIsSelection | upload-photos.rb:33-39 | the pruned walk equals the reference: the photo files of the full pre-order traversal that have no dot-named directory above them |
| UploadPhotos.WalkChildrenIsSelection | upload-photos.rb:33-39 | the same for a directory's entries |
| UploadPhotos.WalkCollectsExactly | upload-photos.rb:33-39 | a path is collected exactly when it is a regular file, never a directory, with a matching extension and no dot-named directory above it |
| UploadPhotos.DotDirectoryYieldsNothing | upload-photos.rb:34-35 | a dot-named directory, a card root included, yields nothing |
| UploadPhotos.DotFileIsCollected | upload-photos.rb:34-37 | a regular file named `._IMG.JPG` is collected: pruning is for directories only |
| UploadPhotos.ScanAll | upload-photos.rb:30-40 | the walks of all cards, in card order; its properties are `ScanAllExtends` and `ScanAllMembers` |
| UploadPhotos.ScanAllExtends | upload-photos.rb:27-40 | `photo_files` only grows at its end, card after card |
| UploadPhotos.ScanAllMembers | upload-photos.rb:30-40 | a path is collected exactly when some card's walk collects it |
| UploadPhotos.ChildItemsWalk | upload-photos.rb:33 | putting a directory's entries in front of the list of paths to visit keeps what remains to collect |
| UploadPhotos.ScanCard | upload-photos.rb:33-39 | the `Find.find` loop appends the card's walk to `photo_files` |
| UploadPhotos.ScanCards | upload-photos.rb:27-40 | the glob loop leaves in `photo_files` the concatenation, in card order, of each card's walk |
| UploadPhotos.UploadPhotos | upload-photos.rb:21-43 | the script aborts, before any card is scanned, exactly when the rename script is not executable; otherwise it calls it on all the collected paths |

## Left out

- The `sips` call and `File.mtime` are foreign calls. Their answers are inputs, given as functions of the photo's path. The model does not cover `sips` reading a different file at the same path on a later call.
- `DateTime.strptime` is modelled as a check of the `DDDD:DD:DD DD:DD:DD` layout only. It has no calendar check (strptime rejects month 13 and falls back to the mtime), no one-digit fields, no time zones and no trailing text. The single space of the format is one space here, but strptime lets it match any run of white space or none: `2024:03:05  14:30:00` and `2024:03:0514:30:00` parse in Ruby, while `IsStamp` rejects them and the model falls back to the mtime.
- PhotoDates.PhotoDate: the year of a parsed date stays below 10000, because `%Y` reads four digits here. Negative years and years wider than four digits are not modelled.
- Case folding (`downcase`, the `/i` flag) is ASCII only. Ruby also folds non-ASCII letters.
- The model describes Ruby 2.7 to 3.1. `File.extname("foo.") == "."` holds from Ruby 2.7 on, and `File.exists?` was removed in Ruby 3.2.
- `(suffix.ord+1).chr` on the suffix of code 255, that is `256.chr`, is taken to raise `RangeError`, which holds while `Encoding.default_internal` is unset (the default); with it set to UTF-8, say, `256.chr` returns a character and the search goes on.
- String encodings are not modelled. This includes the binary-encoded suffix characters 128 to 254, which Ruby cannot join to a non-ASCII `PHOTO_DIR`.
- Paths are plain strings. There is no normalisation, no trailing-slash handling in `File.basename`, and no closure of the directory set under parents.
- Symbolic links are not modelled. Every node is a regular file, a directory, or something else that is neither walked into nor collected.
- The order in which `Find.find` visits a directory's entries (sorted) is not modelled. Each directory's entries are given in visit order.
- `Find.find`'s handling of unreadable directories is not modelled, and neither is the `reverse_each`/`unshift` mechanics; pushing the entries is one list operation (`ChildItems`).
- Logging is I/O and is not modelled: only the line printed for each photo is kept, as an event: "File does not exist: …" (rename-photos.rb:64) or "photo -> newpath" (rename-photos.rb:87). This covers the STDOUT/STDERR redirection, `puts`, and the `DEBUG` output.
- ENV-driven configuration is not modelled. `PHOTO_DIR` and `TEST` are a `Config`, and the photo lists and cards are given.
- Globbing (`Dir[...]`) is not modelled: the glob results are the given lists.
- The `system(RENAME_PHOTOS, *photo_files)` launch is not modelled. Its arguments are the result (`RunRename`).
- `mkdir_p` and `mv` are set updates. Their atomicity and other failure modes are not modelled.
- The race between the existence check and the move is not modelled, because it needs concurrent runs.
- The commented-out flash-card deletion (rename-photos.rb:91-99) is dead code.
