/**
 * The main window's WebDAV handlers (`MarkdownNotepad`): the `.md` suffix of
 * save-as, the timestamped backup name, the backup upload and the restore
 * download. The dialogs, the clock, the HTTP replies and the outcome of file
 * writes are parameters; each handler returns what it sends and what it ends
 * up showing.
 */
module Notepad {
  import opened Wrappers
  import opened Text
  import opened PosixPath
  import opened Timestamp
  import opened Endpoint
  import opened Listing

  // ---------------------------------------------------------------- save as

  /** Save-as appends `.md` to a chosen path that does not end with it; the test is case-sensitive. */
  function WithMdSuffix(path: string): (r: string)
    ensures EndsWith(r, ".md")
    ensures |path| <= |r| && r[..|path|] == path
    ensures r == path <==> EndsWith(path, ".md")
    ensures !EndsWith(path, ".md") ==> |r| == |path| + 3
  {
    if EndsWith(path, ".md") then path else path + ".md"
  }

  /** Applying the rule to its own result changes nothing. */
  lemma WithMdSuffixIdempotent(path: string)
    ensures WithMdSuffix(WithMdSuffix(path)) == WithMdSuffix(path)
  {
    assert EndsWith(WithMdSuffix(path), ".md");
  }

  /** A path ending in `.MD` is not recognised and gets a second suffix. */
  lemma WithMdSuffixIsCaseSensitive()
    ensures WithMdSuffix("a.MD") == "a.MD.md"
  {
    assert "a.MD"[1..] != ".md";
  }

  /**
   * `save_file` on a tab that has no path yet goes to save-as: `dialogPath` is
   * what the save dialog returned (empty when cancelled) and `written` whether
   * writing the file succeeded. The result is the tab's path afterwards.
   */
  function SavedPath(dialogPath: string, written: bool): (r: string)
    ensures r != [] <==> dialogPath != [] && written
    ensures r != [] ==> r == WithMdSuffix(dialogPath)
  {
    if dialogPath != [] && written then WithMdSuffix(dialogPath) else []
  }

  // ------------------------------------------------------------ backup name

  /** `f"{name}_{timestamp}{ext}"` with `name, ext = splitext(fileName)`. */
  function Stamped(fileName: string, timestamp: string): (r: string)
    ensures |r| == |fileName| + 1 + |timestamp|
  {
    var parts := SplitExt(fileName);
    parts.0 + "_" + timestamp + parts.1
  }

  /** The name a backup of the file at `path` is uploaded under. */
  function BackupName(path: string, now: DateTime): string {
    Stamped(BaseName(path), Format(now))
  }

  /**
   * A stamped name is the file name with `_` and the timestamp inserted before
   * its extension: stem and extension put back together give the file name,
   * and the extension is empty or a single `.` part.
   */
  lemma StampedParts(fileName: string, timestamp: string) returns (stem: string, ext: string)
    ensures (stem, ext) == SplitExt(fileName)
    ensures Stamped(fileName, timestamp) == stem + "_" + timestamp + ext
    ensures stem + ext == fileName
    ensures ext == [] || (ext[0] == '.' && '.' !in ext[1..])
  {
    stem, ext := SplitExt(fileName).0, SplitExt(fileName).1;
  }

  /** A stamped name has a `/` only where the file name or the timestamp has one. */
  lemma StampedHasNoSlash(fileName: string, timestamp: string)
    requires '/' !in fileName && '/' !in timestamp
    ensures '/' !in Stamped(fileName, timestamp)
  {
    var stem, ext := StampedParts(fileName, timestamp);
    assert forall k :: 0 <= k < |stem| ==> stem[k] == fileName[k];
    assert forall k :: 0 <= k < |ext| ==> ext[k] == fileName[|stem| + k];
  }

  /** A backup name is a single path segment, fifteen characters longer than the file name. */
  lemma BackupNameHasNoSlash(path: string, now: DateTime)
    ensures '/' !in BackupName(path, now)
    ensures |BackupName(path, now)| == |BaseName(path)| + 15
  {
    var ts := Format(now);
    assert forall k :: 0 <= k < |ts| ==> IsDigit(ts[k]);
    StampedHasNoSlash(BaseName(path), ts);
  }

  /** Names that differ only in a same-length middle part are equal exactly when the middle parts are. */
  lemma InsertedEqual(head: string, x: string, y: string, tail: string)
    requires |x| == |y|
    ensures head + x + tail == head + y + tail <==> x == y
  {
    if head + x + tail == head + y + tail {
      assert (head + x + tail)[|head|..|head| + |x|] == x;
      assert (head + y + tail)[|head|..|head| + |y|] == y;
    }
  }

  /** Names that differ only in a same-length middle part compare as the middle parts do. */
  lemma InsertedOrder(head: string, x: string, y: string, tail: string)
    requires |x| == |y|
    ensures LexLess(head + x + tail, head + y + tail) <==> LexLess(x, y)
  {
    assert head + x + tail == head + (x + tail);
    assert head + y + tail == head + (y + tail);
    LexLessAppend(head, x + tail, head, y + tail);
    LexLessIrreflexive(head);
    LexLessAppend(x, tail, y, tail);
    LexLessIrreflexive(tail);
  }

  /** Stamping is injective in the timestamp, for timestamps of one length. */
  lemma StampedInjective(fileName: string, x: string, y: string)
    requires |x| == |y|
    ensures Stamped(fileName, x) == Stamped(fileName, y) <==> x == y
  {
    var stem, ext := StampedParts(fileName, x);
    var _, _ := StampedParts(fileName, y);
    InsertedEqual(stem + "_", x, y, ext);
  }

  /** Stamped names of one file compare as their timestamps do, for timestamps of one length. */
  lemma StampedOrder(fileName: string, x: string, y: string)
    requires |x| == |y|
    ensures LexLess(Stamped(fileName, x), Stamped(fileName, y)) <==> LexLess(x, y)
  {
    var stem, ext := StampedParts(fileName, x);
    var _, _ := StampedParts(fileName, y);
    InsertedOrder(stem + "_", x, y, ext);
  }

  /** `notes.md` is its own basename, with stem `notes` and extension `.md`. */
  lemma NotesParts()
    ensures BaseName("notes.md") == "notes.md"
    ensures SplitExt("notes.md") == ("notes", ".md")
  {
    var p := "notes.md";
    assert LastIndexOf(p, '/') == -1 by {
      assert '/' !in p;
    }
    assert LastIndexOf(p, '.') == 5 by {
      assert p[5] == '.';
    }
    assert p[0] != '.';
    assert SplitExt(p) == (p[..5], p[5..]);
    assert p[..5] == "notes" && p[5..] == ".md";
  }

  /** `notes.md` backed up at 2024-01-02 03:04:05 is `notes_20240102030405.md`. */
  lemma BackupNameExample()
    ensures BackupName("notes.md", DateTime(2024, 1, 2, 3, 4, 5)) == "notes_20240102030405.md"
  {
    var now := DateTime(2024, 1, 2, 3, 4, 5);
    assert "notes" + "_" + "20240102030405" + ".md" == "notes_20240102030405.md";
    NotesParts();
    FormatExample();
    var ts := Format(now);
    assert ts == "20240102030405";
    assert Stamped("notes.md", ts) == "notes" + "_" + ts + ".md";
  }

  /** Backups of the same file taken in different seconds get different names. */
  lemma BackupNameInjective(path: string, a: DateTime, b: DateTime)
    requires Valid(a) && Valid(b)
    ensures BackupName(path, a) == BackupName(path, b) <==> a == b
  {
    StampedInjective(BaseName(path), Format(a), Format(b));
    FormatInjective(a, b);
  }

  /** Backups of the same file sort by name exactly in the order they were taken. */
  lemma BackupNameOrder(path: string, a: DateTime, b: DateTime)
    requires Valid(a) && Valid(b)
    ensures LexLess(BackupName(path, a), BackupName(path, b)) <==> Before(a, b)
  {
    StampedOrder(BaseName(path), Format(a), Format(b));
    FormatOrder(a, b);
  }

  /** A name ending with an extension that lower-cases to `.md` passes the `.md` test. */
  lemma MarkdownByExtension(name: string, ext: string)
    requires EndsWith(name, ext) && Lower(ext) == ".md"
    ensures IsMarkdownName(name)
  {
    LowerAt(ext, 0);
    LowerAt(ext, 1);
    LowerAt(ext, 2);
    var n := |name|;
    assert name[n - 3] == ext[0] && name[n - 2] == ext[1] && name[n - 1] == ext[2];
    MarkdownNameIff(name);
  }

  /**
   * The backup of a file whose extension is `.md` in any letter case is listed
   * by the restore dialog under its own name, wherever the server puts it.
   */
  lemma BackupPassesFilter(path: string, now: DateTime, prefix: string)
    requires Lower(SplitExt(BaseName(path)).1) == ".md"
    requires prefix == [] || prefix[|prefix| - 1] == '/'
    ensures ListedName(prefix + BackupName(path, now)) == Some(BackupName(path, now))
  {
    var stem, ext := StampedParts(BaseName(path), Format(now));
    var name := BackupName(path, now);
    BackupNameHasNoSlash(path, now);
    var href := prefix + name;
    BaseNameAfterSlash(prefix, name);
    assert BaseName(href) == name;
    assert EndsWith(name, ext) by {
      assert name == (stem + "_" + Format(now)) + ext;
    }
    MarkdownByExtension(name, ext);
    assert href[|href| - 1] == name[|name| - 1] == ext[2];
  }

  /** `.md` is its own basename and, as a leading-dot name, has no extension. */
  lemma DotMdParts()
    ensures BaseName(".md") == ".md"
    ensures SplitExt(".md") == (".md", [])
  {
    var p := ".md";
    assert LastIndexOf(p, '/') == -1 by {
      assert '/' !in p;
    }
    assert LastIndexOf(p, '.') == 0 by {
      assert p[0] == '.' && p[1] != '.' && p[2] != '.';
    }
  }

  /**
   * The backup of a file without extension ends in a timestamp digit, so the
   * restore dialog never lists it.
   */
  lemma NoExtensionBackupNotListed(path: string, now: DateTime, prefix: string)
    requires SplitExt(BaseName(path)).1 == []
    ensures ListedName(prefix + BackupName(path, now)) == None
  {
    var ts := Format(now);
    var name := BackupName(path, now);
    StampedEndsWithTimestamp(BaseName(path), ts);
    var href := prefix + name;
    assert href[|href| - 1] == name[|name| - 1];
    EndsInDigitNotListed(href);
  }

  /** Without an extension, the stamped name ends with the timestamp. */
  lemma StampedEndsWithTimestamp(fileName: string, timestamp: string)
    requires SplitExt(fileName).1 == [] && timestamp != []
    ensures var r := Stamped(fileName, timestamp); r != [] && r[|r| - 1] == timestamp[|timestamp| - 1]
  {
    var stem, ext := StampedParts(fileName, timestamp);
    assert Stamped(fileName, timestamp) == (stem + "_") + timestamp;
  }

  /** An `href` ending in a digit is not listed. */
  lemma EndsInDigitNotListed(href: string)
    requires href != [] && IsDigit(href[|href| - 1])
    ensures ListedName(href) == None
  {
    ListedNameIff(href);
  }

  /**
   * A file named `.md` counts as having no extension, so its backup
   * `.md_<timestamp>` is not listed, whatever its directory.
   */
  lemma HiddenFileBackupNotListed(path: string, now: DateTime, prefix: string)
    requires BaseName(path) == ".md"
    ensures ListedName(prefix + BackupName(path, now)) == None
  {
    DotMdParts();
    NoExtensionBackupNotListed(path, now, prefix);
  }

  // ----------------------------------------------------------------- backup

  /**
   * The characters `str.strip()` removes by default: those for which Python's
   * `str.isspace()` holds.
   */
  const Whitespace: set<char> := {
    '\t', '\n', '\U{B}', '\U{C}', '\r', '\U{1C}', '\U{1D}', '\U{1E}', '\U{1F}', ' ',
    '\U{85}', '\U{A0}', '\U{1680}', '\U{2000}', '\U{2001}', '\U{2002}', '\U{2003}', '\U{2004}',
    '\U{2005}', '\U{2006}', '\U{2007}', '\U{2008}', '\U{2009}', '\U{200A}', '\U{2028}', '\U{2029}',
    '\U{202F}', '\U{205F}', '\U{3000}'
  }

  /** `not content.strip()`. */
  predicate IsBlank(content: string) {
    Strip(content, Whitespace) == []
  }

  /** The content is refused exactly when it is empty or consists of whitespace only. */
  lemma IsBlankIff(content: string)
    ensures IsBlank(content) <==> AllIn(content, Whitespace)
  {
    StripEmptyIff(content, Whitespace);
  }

  /** The HTTP answer to a request; `NoReply` when `requests` raises (no connection, timeout). */
  datatype Reply = NoReply | Reply(status: int, body: string)

  /** PUT accepts 200 OK, 201 Created and 204 No Content. */
  predicate PutSucceeded(reply: Reply) {
    reply.Reply? && reply.status in {200, 201, 204}
  }

  /**
   * The configuration a handler works with: the stored one when it has a URL,
   * otherwise what the configuration dialog returned on acceptance (`dialog`),
   * or the stored one again when the dialog was cancelled.
   */
  function Configured(config: Config, dialog: Option<Config>): Config {
    if config.url != [] then config else if dialog.Some? then dialog.value else config
  }

  /** The current editor tab: its text, and its file path (empty while unsaved). */
  datatype Tab = Tab(content: string, filePath: string)

  datatype Put = Put(url: string, body: string)

  /** What a backup ends with: the message shown, and the upload when one is sent. */
  datatype BackupOutcome =
    | NotConfigured
    | NoEditor
    | BlankContent
    | NotSaved
    | BackedUp(put: Put, name: string)
    | BackupFailed(put: Put, name: string)
  {
    predicate Uploads() { BackedUp? || BackupFailed? }
  }

  /** The configuration and the tab's file path after a backup, and its outcome. */
  datatype BackupRun = BackupRun(config: Config, filePath: string, outcome: BackupOutcome)

  /**
   * `backup_to_webdav`: make sure a URL is configured, take the current tab's
   * text, refuse blank text, save an unsaved tab through save-as first, and PUT
   * the text under the timestamped backup name. `configDialog`, `saveDialogPath`
   * and `saveWritten` are what the dialogs and the file write produce, `now` the
   * clock and `reply` the server's answer to the PUT.
   */
  function Backup(config: Config, configDialog: Option<Config>, tab: Option<Tab>,
                  saveDialogPath: string, saveWritten: bool, now: DateTime, reply: Reply): (r: BackupRun)
    ensures config.url != [] ==> r.config == config
    ensures config.url == [] ==> r.config == (if configDialog.Some? then configDialog.value else config)
    ensures r.outcome == NotConfigured <==> r.config.url == []
    ensures r.outcome == NoEditor <==> r.config.url != [] && tab.None?
    ensures r.outcome == BlankContent <==> r.config.url != [] && tab.Some? && IsBlank(tab.value.content)
    ensures !r.outcome.Uploads() ==> r.filePath == (if tab.Some? then tab.value.filePath else [])
    ensures r.outcome.Uploads() <==>
      && r.config.url != []
      && tab.Some?
      && !IsBlank(tab.value.content)
      && (tab.value.filePath != [] || (saveDialogPath != [] && saveWritten))
    ensures r.outcome.Uploads() ==>
      && r.filePath == (if tab.value.filePath != [] then tab.value.filePath else WithMdSuffix(saveDialogPath))
      && r.outcome.name == BackupName(r.filePath, now)
      && r.outcome.put == Put(CollectionUrl(r.config) + "/" + r.outcome.name, tab.value.content)
    ensures r.outcome.BackedUp? <==> r.outcome.Uploads() && PutSucceeded(reply)
  {
    var cfg := Configured(config, configDialog);
    if cfg.url == [] then
      BackupRun(cfg, if tab.Some? then tab.value.filePath else [], NotConfigured)
    else if tab.None? then
      BackupRun(cfg, [], NoEditor)
    else if IsBlank(tab.value.content) then
      BackupRun(cfg, tab.value.filePath, BlankContent)
    else
      var path := if tab.value.filePath != [] then tab.value.filePath else SavedPath(saveDialogPath, saveWritten);
      if path == [] then
        BackupRun(cfg, path, NotSaved)
      else
        var name := BackupName(path, now);
        var put := Put(PutUrl(cfg, name), tab.value.content);
        BackupRun(cfg, path, if PutSucceeded(reply) then BackedUp(put, name) else BackupFailed(put, name))
  }

  // ---------------------------------------------------------------- restore

  /** What a download ends with; both outcomes know the GET URL. */
  datatype Download =
    | Opened(url: string, content: string, cachePath: string)
    | DownloadFailed(url: string)

  /**
   * `download_and_open_webdav_file`: GET the file, then write the text to the
   * cache directory and open it in a new tab. Anything but 200 fails, and so
   * does a failing cache write (`cacheWritten`).
   */
  function DownloadFile(config: Config, filename: string, cacheDir: string, reply: Reply, cacheWritten: bool): (r: Download)
    ensures r.url == CollectionUrl(config) + "/" + filename
    ensures r.Opened? <==> reply.Reply? && reply.status == 200 && cacheWritten
    ensures r.Opened? ==> r.content == reply.body && r.cachePath == Join(cacheDir, filename)
  {
    var url := GetUrl(config, filename);
    if reply.NoReply? || reply.status != 200 || !cacheWritten then DownloadFailed(url)
    else Opened(url, reply.body, Join(cacheDir, filename))
  }

  datatype RestoreOutcome = RestoreNotConfigured | NothingChosen | Fetched(download: Download)

  datatype RestoreRun = RestoreRun(config: Config, outcome: RestoreOutcome)

  /**
   * `restore_from_webdav`: make sure a URL is configured, let the user pick a
   * file in the restore dialog (`chosen` is `None` when the dialog is cancelled
   * or nothing is selected), and download the chosen one.
   */
  function Restore(config: Config, configDialog: Option<Config>, chosen: Option<string>,
                   cacheDir: string, reply: Reply, cacheWritten: bool): (r: RestoreRun)
    ensures config.url != [] ==> r.config == config
    ensures config.url == [] ==> r.config == (if configDialog.Some? then configDialog.value else config)
    ensures r.outcome == RestoreNotConfigured <==> r.config.url == []
    ensures r.outcome.Fetched? <==> r.config.url != [] && chosen.Some? && chosen.value != []
    ensures r.outcome.Fetched? ==> r.outcome.download.url == CollectionUrl(r.config) + "/" + chosen.value
    ensures r.outcome.Fetched? ==> r.outcome.download == DownloadFile(r.config, chosen.value, cacheDir, reply, cacheWritten)
  {
    var cfg := Configured(config, configDialog);
    if cfg.url == [] then RestoreRun(cfg, RestoreNotConfigured)
    else if chosen.None? || chosen.value == [] then RestoreRun(cfg, NothingChosen)
    else RestoreRun(cfg, Fetched(DownloadFile(cfg, chosen.value, cacheDir, reply, cacheWritten)))
  }

  /**
   * Restoring the name of a backup with the configuration it used fetches the
   * URL it was uploaded to; when the server returns what it stored, the tab
   * opens exactly the uploaded text, cached under the backup's name. The
   * requirement is what `Backup` promises of a successful run.
   */
  lemma RestoreOfBackup(run: BackupRun, content: string, now: DateTime, cacheDir: string)
    requires run.outcome.BackedUp? && run.config.url != []
    requires run.outcome.name == BackupName(run.filePath, now)
    requires run.outcome.put == Put(CollectionUrl(run.config) + "/" + run.outcome.name, content)
    ensures var put, name := run.outcome.put, run.outcome.name;
      Restore(run.config, None, Some(name), cacheDir, Reply(200, put.body), true)
        == RestoreRun(run.config, Fetched(Opened(put.url, content, Join(cacheDir, name))))
  {
  }

  /** A successful backup meets the requirement of `RestoreOfBackup`. */
  lemma BackupThenRestore(config: Config, configDialog: Option<Config>, tab: Option<Tab>,
                          saveDialogPath: string, saveWritten: bool, now: DateTime, reply: Reply,
                          cacheDir: string)
    requires Backup(config, configDialog, tab, saveDialogPath, saveWritten, now, reply).outcome.BackedUp?
    ensures var run := Backup(config, configDialog, tab, saveDialogPath, saveWritten, now, reply);
      Restore(run.config, None, Some(run.outcome.name), cacheDir, Reply(200, run.outcome.put.body), true)
        == RestoreRun(run.config, Fetched(Opened(run.outcome.put.url, tab.value.content, Join(cacheDir, run.outcome.name))))
  {
    var run := Backup(config, configDialog, tab, saveDialogPath, saveWritten, now, reply);
    RestoreOfBackup(run, tab.value.content, now, cacheDir);
  }

  /**
   * A name the restore dialog lists stays inside the cache directory: it is a
   * single segment other than `.` and `..`, appended after one `/`.
   */
  lemma ListedNameStaysInCache(entries: seq<Option<string>>, name: string, cacheDir: string)
    requires name in ListedNames(entries)
    requires cacheDir != [] && cacheDir[|cacheDir| - 1] != '/'
    ensures Join(cacheDir, name) == cacheDir + "/" + name
    ensures '/' !in name && name != "." && name != ".."
  {
    ListedNamesAreFileNames(entries, name);
    var i := ListedNameSource(entries, name);
    MarkdownNameIff(name);
  }
}
