# WebDAV backup and restore of the Markdown notepad, in Dafny

`main.py` is a PyQt Markdown editor. It can back up the current document to a
WebDAV server and restore one from it. The handlers mix GUI code with some
string and path logic. This project models that logic and proves its
properties:

- **Endpoint URLs.** The collection URL that the restore dialog lists with
  PROPFIND is built from `url` and `remote_dir`. The backup rebuilds it for the
  PUT of a backup and the restore rebuilds it for the GET of a file.
- **Backup name.** The name is `basename`, then `splitext`, then a
  `%Y%m%d%H%M%S` timestamp inserted as `f"{name}_{timestamp}{ext}"`.
- **Listing.** `WebDAVFileDialog.load_files` clears the list and walks the
  `d:response` elements of a 207 answer. It keeps the last path segment of
  every non-collection `href` whose lower-cased segment ends in `.md`. An
  exception stops the walk part-way.
- **Handlers.** `backup_to_webdav`, `restore_from_webdav` and
  `download_and_open_webdav_file` are modelled with their preconditions, PUT,
  GET and cache path. So is the `.md` suffix that save-as appends.

Modules, one per file:

| module | file | what it holds |
|---|---|---|
| `Wrappers`, `Text` | `text.dfy` | `Option`; Python's `str.strip(chars)`, `endswith`, `rfind`, `lower` and string `<` |
| `PosixPath` | `posix_path.dfy` | `os.path.basename`, `splitext` and `join` with POSIX rules |
| `Timestamp` | `timestamp.dfy` | date-times, `strftime("%Y%m%d%H%M%S")` and its inverse |
| `Endpoint` | `endpoint.dfy` | the `webdav_config` record and the three URL builders |
| `Listing` | `listing.dfy` | the `href` filter, the names a listing produces, and the `FileDialog` class with the `LoadFiles` loop |
| `Notepad` | `notepad.dfy` | the save-as suffix, backup naming, and the backup and restore handlers |

The restore dialog is a class because `load_files` updates `self.file_list` in
place. Its loop appears in Dafny as a `while` loop over the responses. Every
other piece is a straight-line expression in the source and a function here.

The outside world enters as explicit parameters:
- the configuration dialog's result;
- the save dialog's path and whether writing the file worked;
- the clock (`now`);
- the HTTP replies (status, body, and the parsed `href` texts of a
  Multi-Status body);
- whether writing the cache file worked.

Three behaviours of the code worth noting:
- Restore joins the chosen name to the cache directory without any check
  against `..` or `/` (`main.py:728`). `ListedNameStaysInCache` shows why this
  is harmless for names the list can hold.
- Backup refuses content that is empty or only whitespace, because it tests
  `content.strip()` (`main.py:647`).
- The URL and the remote directory lose `/` at both ends, not only at the end
  (`strip('/')`, `main.py:118-119`).

## Model

| member | source | states |
|---|---|---|
| Text.TrimLeft | main.py:118-119 | `lstrip`: the result is no longer than the input and does not begin with a stripped character |
| Text.TrimRight | main.py:118-119 | `rstrip`: the result is no longer than the input, does not end with a stripped character and keeps the first character |
| Text.Strip | main.py:118-119 | `strip(chars)`: the result neither begins nor ends with a character from `chars` |
| Text.TrimLeftSplit | main.py:118-119 | `lstrip` removes a prefix made only of characters from `chars`, and nothing else |
| Text.TrimRightSplit | main.py:118-119 | `rstrip` removes a suffix made only of characters from `chars`, and nothing else |
| Text.TrimLeftPadded | main.py:118-119 | `lstrip` skips any leading run of stripped characters: padding in front changes nothing |
| Text.TrimRightPadded | main.py:118-119 | `rstrip` skips any trailing run of stripped characters: padding behind changes nothing |
| Text.StripUnique | main.py:118-119 | whatever sits between two runs of `chars` and has clean ends is exactly what `strip` returns |
| Text.StripSplit | main.py:118-119 | the input is the stripped string with a run of `chars` on each side |
| Text.StripIgnoresPadding | main.py:118-119 | extra characters from `chars` on either side do not change the result |
| Text.StripClean | main.py:118-119 | a string with clean ends is left unchanged |
| Text.StripIdempotent | main.py:118-119 | stripping twice is stripping once |
| Text.StripEmptyIff | main.py:647 | `strip` leaves nothing exactly when every character is one it strips |
| Text.LastIndexOf | main.py:138 | `rfind`: -1 or an index holding the character, with no later occurrence |
| Text.AbsentAfterLast | main.py:138 | the character does not occur after its last occurrence |
| Text.Lower | main.py:143 | the model's `lower()` keeps the length |
| Text.LowerAt | main.py:143 | the model's `lower()` lowers each character in place |
| Text.EndsWith | main.py:141-143 | `str.endswith`: the suffix is no longer than the string and is its last part (also `main.py:567`) |
| Text.LexLess | main.py:663 | Python's `<` on strings: the first differing code point decides, and a proper prefix comes first; the order lemmas for timestamps and backup names are stated with it |
| Text.LexLessIrreflexive | main.py:663 | no string sorts before itself |
| Text.LexLessAppend | main.py:663 | string order on concatenations with same-length heads compares the heads, then the tails |
| PosixPath.BaseName | main.py:138 | `basename`: a suffix of the path that holds no `/` and is preceded by `/` unless it is the whole path |
| PosixPath.SplitExt | main.py:660 | `splitext`: root and extension concatenate to the input; the extension is empty or one `.` part without `/` |
| PosixPath.SplitExtOfName | main.py:660 | a file name has an extension exactly when some `.` follows a character other than `.` (so `.bashrc` has none) |
| PosixPath.BaseNameAfterSlash | main.py:138 | a name without `/` after a prefix that is empty or ends with `/` is its own basename |
| PosixPath.BaseNameKeepsTail | main.py:138 | when the last three characters of a path are not `/`, its basename ends with them |
| PosixPath.Join | main.py:728 | `os.path.join`: an absolute second part wins; otherwise exactly one `/` joins a non-empty directory not ending in `/` and the name, and nothing is inserted after an empty directory or one ending in `/` |
| Timestamp.Padded | main.py:663 | `%0Nd`: exactly `width` decimal digits |
| Timestamp.PaddedValue | main.py:663 | reading a padded field back gives the number |
| Timestamp.PaddedInjective | main.py:663 | different numbers that fit the width print differently |
| Timestamp.PaddedOrder | main.py:663 | for one width, string order of padded fields is numeric order |
| Timestamp.Format | main.py:663 | `%Y%m%d%H%M%S` is exactly fourteen decimal digits |
| Timestamp.FormatParse | main.py:663 | parsing the timestamp of a valid date-time gives the date-time back |
| Timestamp.FormatInjective | main.py:663 | two valid date-times have equal timestamps exactly when they are equal |
| Timestamp.CutFields | main.py:663 | the six printed fields can be cut back out of the timestamp at fixed offsets |
| Timestamp.PaddedMatch | main.py:663 | two padded fields of one width compare and coincide exactly as their numbers do |
| Timestamp.FieldOrder | main.py:663 | comparing timestamps field by field: a smaller field decides; an equal field defers to the rest |
| Timestamp.OrderOfFields | main.py:663 | six such fields laid end to end compare in chronological order |
| Timestamp.FormatOrder | main.py:663 | timestamps sort as strings exactly in chronological order |
| Timestamp.FormatExample | main.py:663 | 2024-01-02 03:04:05 prints as `20240102030405` |
| Endpoint.StripSlashes | main.py:118-119 | `strip('/')` leaves no `/` at either end |
| Endpoint.CollectionUrl | main.py:118-121 | the collection URL never ends with `/` |
| Endpoint.CollectionUrlJoin | main.py:118-121 | the collection URL is the stripped URL, alone or followed by exactly one `/` and a non-`/` character |
| Endpoint.CollectionUrlIgnoresSlashes | main.py:118-121 | any number of `/` around the URL or the directory gives the same collection URL |
| Endpoint.CollectionUrlOfClean | main.py:118-121 | for a URL and directory without `/` at their ends the collection URL is the plain join |
| Endpoint.PutUrl | main.py:669-674 | the PUT URL is the collection URL, `/` and the backup name |
| Endpoint.GetUrl | main.py:708-714 | the GET URL is the collection URL, `/` and the file name |
| Listing.IsMarkdownName | main.py:143 | `name.lower().endswith('.md')`; `MarkdownNameIff` reduces it to the last three characters |
| Listing.MarkdownNameIff | main.py:143 | the `.md` test holds exactly when the name ends in `.md` in any letter case (`EndsInMd`: the last three characters are `.`, `m` or `M`, and `d` or `D`) |
| Listing.ListedName | main.py:136-144 | a listed name is non-empty and has no `/` |
| Listing.CollectionHasNoName | main.py:138-141 | an `href` ending with `/` has an empty last segment |
| Listing.ListedEndsInMd | main.py:136-144 | a listed `href` ends in `.md` in some letter case, and its basename is what is listed |
| Listing.EndsInMdListed | main.py:136-144 | an `href` ending in `.md` in any letter case is listed |
| Listing.ListedNameIff | main.py:136-144 | an `href` is listed exactly when it ends in `.md` in any letter case; the listed name is its basename |
| Listing.Collect | main.py:135-144 | at most one name per response |
| Listing.CollectAppend | main.py:135-144 | the names for two runs of complete responses are the first run's names followed by the second's (server order is kept) |
| Listing.CollectStep | main.py:135-144 | one more response with an `href` appends its listed name, if any |
| Listing.CollectStop | main.py:135-147 | the walk ends at the first response without an `href`; such a listing is not complete |
| Listing.ListedNames | main.py:135-144 | the names `Collect` keeps with the `href` filter; `ListedNamesMembership` says exactly which names are listed |
| Listing.ListedNamesStop | main.py:135-147 | nothing after a response without `href` is listed |
| Listing.CompleteCons | main.py:135-136 | a prefix of responses is complete exactly when its first entry and the rest are |
| Listing.ListedNameSource | main.py:135-144 | every listed name comes from a response before the first missing `href` |
| Listing.ListedNameIncluded | main.py:135-144 | every response before the first missing `href` contributes its listed name |
| Listing.ListedNamesMembership | main.py:135-144 | a name is listed exactly when a response before the first missing `href` lists as it |
| Listing.ListedNamesAreFileNames | main.py:138-143 | every listed name is a non-empty segment without `/` |
| Listing.IsMultiStatus | main.py:128 | the loop runs only on a 207 answer whose body parses |
| Listing.FileDialog.constructor | main.py:75-84 | the dialog keeps the configuration it was given and starts with an empty list |
| Listing.FileDialog.LoadFiles | main.py:108-147 | the list is cleared; with no URL it stays empty and the configuration warning shows; otherwise the PROPFIND goes to the collection URL, and the list holds the listed names of a parsed 207 answer, up to the first missing `href`, and nothing otherwise; the load error shows exactly for answers other than a parsed 207 whose responses all have an `href` |
| Notepad.WithMdSuffix | main.py:567-568 | the path ends with `.md`, starts with the chosen path, is three characters longer (so the chosen path followed by `.md`) when the chosen path does not end with `.md`, and is unchanged exactly when the chosen path already ends with `.md` |
| Notepad.WithMdSuffixIdempotent | main.py:567-568 | applying the suffix rule twice is applying it once |
| Notepad.WithMdSuffixIsCaseSensitive | main.py:567-568 | `a.MD` becomes `a.MD.md` |
| Notepad.SavedPath | main.py:552-571 | save-as leaves a path exactly when a path was chosen and the file was written, and that path carries the `.md` suffix |
| Notepad.Stamped | main.py:666 | the stamped name is one `_` and the timestamp longer than the file name; `StampedParts` gives its shape |
| Notepad.BackupName | main.py:659-663 | the basename of the path stamped with the `%Y%m%d%H%M%S` timestamp; `BackupNameHasNoSlash`, `BackupNameInjective` and `BackupNameOrder` give its length, injectivity and order |
| Notepad.StampedParts | main.py:659-666 | the backup name is stem, `_`, timestamp, extension, where the stem and extension are `splitext` of the file name |
| Notepad.StampedHasNoSlash | main.py:666 | stamping adds no `/` |
| Notepad.BackupNameHasNoSlash | main.py:659-666 | a backup name is a single path segment, fifteen characters longer than the file name |
| Notepad.InsertedEqual | main.py:666 | names differing only in a same-length middle part are equal exactly when the middle parts are |
| Notepad.InsertedOrder | main.py:666 | names differing only in a same-length middle part compare as the middle parts do |
| Notepad.StampedInjective | main.py:666 | one file stamped with two timestamps of one length gives equal names exactly for equal timestamps |
| Notepad.StampedOrder | main.py:666 | one file stamped with two timestamps of one length gives names that compare as the timestamps do |
| Notepad.NotesParts | main.py:659-660 | `notes.md` is its own basename and splits into `notes` and `.md` |
| Notepad.BackupNameExample | main.py:659-666 | `notes.md` backed up at 2024-01-02 03:04:05 is `notes_20240102030405.md` |
| Notepad.BackupNameInjective | main.py:659-666 | backups of one file taken in different seconds get different names |
| Notepad.BackupNameOrder | main.py:659-666 | backups of one file sort by name in the order they were taken |
| Notepad.MarkdownByExtension | main.py:143 | a name whose extension lower-cases to `.md` passes the `.md` test |
| Notepad.BackupPassesFilter | main.py:136-144 | provided the server's `href` is a prefix ending in `/` followed by the backup name verbatim (not percent-encoded), the backup of a file whose extension is `.md` in any letter case is listed under its own name, wherever the server puts it |
| Notepad.EndsInDigitNotListed | main.py:141-144 | an `href` ending in a digit is not listed |
| Notepad.StampedEndsWithTimestamp | main.py:659-666 | for a file without extension the stamped name ends with the last character of the timestamp |
| Notepad.NoExtensionBackupNotListed | main.py:659-666 | the backup of a file without extension ends in a timestamp digit and is never listed |
| Notepad.DotMdParts | main.py:659-660 | `.md` is its own basename and, as a leading-dot name, has no extension |
| Notepad.HiddenFileBackupNotListed | main.py:659-666 | the backup of a file named `.md` is not listed, whatever its directory |
| Notepad.IsBlank | main.py:647 | `not content.strip()`, where `Whitespace` is exactly the 29 code points of Python's `str.isspace()`; `IsBlankIff` says it holds exactly for all-whitespace content |
| Notepad.IsBlankIff | main.py:647 | content is refused exactly when it is empty or all whitespace |
| Notepad.PutSucceeded | main.py:680 | a PUT succeeds exactly on status 200, 201 or 204 |
| Notepad.Configured | main.py:636-639 | the stored configuration when it has a URL, otherwise the dialog's result when accepted, otherwise the stored one |
| Notepad.Backup | main.py:634-688 | the configuration is kept when it has a URL and is the dialog's result (when accepted) otherwise; no URL means the not-configured outcome; no tab means the no-editor outcome; blank content is refused; every run that uploads nothing leaves the tab's path as it was; a PUT is sent exactly when a URL is set, a tab exists, the content is not blank and the tab has or gets a path; the PUT goes to the collection URL, `/` and the backup name of that path, and carries the content; success exactly for status 200, 201 or 204 |
| Notepad.DownloadFile | main.py:704-736 | the GET goes to the collection URL, `/` and the name; the file opens exactly for status 200 when the cache file is written, with the body unchanged, from `join(cache_dir, filename)` |
| Notepad.Restore | main.py:690-702 | the configuration is kept when it has a URL and is the dialog's result (when accepted) otherwise; no URL means nothing is restored; a download happens exactly when a non-empty name was chosen, from the collection URL, `/` and that name; the download is exactly `DownloadFile` of that configuration and name |
| Notepad.RestoreOfBackup | main.py:669-674 | for an upload as `Backup` describes it, restoring the backup's name with the same configuration fetches the URL it was uploaded to and, when the server returns what it stored, opens the uploaded text (a body standing for its decoded text) from the cache file named after the backup |
| Notepad.BackupThenRestore | main.py:634-736 | the same, for every successful run of `Backup` |
| Notepad.ListedNameStaysInCache | main.py:728 | a listed name joined to a cache directory is one segment below it, not `.` or `..` |

## Left out

- GUI: dialogs, tabs, menus, message boxes, the status bar and the preview. The dialogs' results are parameters, and a handler's outcome stands for the message box it shows.
- Markdown rendering, config JSON load and save, and the autosave timer. These are I/O and foreign libraries.
- `requests` and `ElementTree`. A reply is a status and a body. A parsed Multi-Status body is the sequence of its responses' `href` texts. An entry is `None` where the loop raises: a response without a `d:href` element (`.text` on `None`), or one whose `d:href` has no text (`os.path.basename(None)`, `main.py:138`).
- Writing the saved file and the cache file. Only whether the write worked is an input.
- The username and password, which are only passed on as HTTP authentication.
- The content's UTF-8 encoding for the PUT (`main.py:678`) and the decoding of the GET answer by `response.text` (`main.py:725`). Content is a string throughout, and a reply's body stands for the decoded text: when `requests` infers another charset, the restored text may differ from the uploaded one, which `RestoreOfBackup` does not cover.
- Percent-encoding of `href` values. `load_files` does not unquote them (`main.py:136-138`), and a server may encode spaces and non-ASCII characters, so a backup is listed under its name as uploaded only when the server's `href` carries that name verbatim.
- `datetime.now()`. The time is a parameter, and microseconds are not printed.
- Windows path rules. `basename`, `splitext` and `join` follow `posixpath`.
- `WebDAVConfigDialog.get_config` strips whitespace from what the user typed (`main.py:57-63`). The model takes the accepted configuration as given.
- `WebDAVFileDialog.__init__` ends by calling `load_files` (`main.py:106`). In the model the caller runs `LoadFiles` after the constructor.
- `WebDAVFileDialog.selected_file` (`main.py:148-153`) is the chosen name passed to `Notepad.Restore`. The link between the list and the selection is not modelled.
- Text.Lower: lowers only ASCII letters, while Python's `str.lower` also lowers other letters. Python's `lower()` can also make a string longer: U+0130 lowers to `i` followed by U+0307. Neither difference reaches the `.md` test of `main.py:143`: no character outside ASCII lowers to `.`, `m` or `d`, and the last character must lower to `d`, so that test is modelled exactly.
- Timestamp.Format: pads `%Y` to four digits for every year. CPython on glibc may print years below 1000 unpadded (999 as `999`); from 1000 to 9999 the two agree.
- Notepad.Backup: the tab's new title and `current_file` after save-as are not returned.
