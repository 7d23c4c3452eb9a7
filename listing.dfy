/**
 * The restore dialog's file list (`WebDAVFileDialog.load_files`): a PROPFIND
 * with `Depth: 1` on the collection URL, and a filter over the `href` of each
 * `d:response` of the 207 Multi-Status answer that keeps the last path segment
 * of every Markdown document, in the order the server sent them.
 */
module Listing {
  import opened Wrappers
  import opened Text
  import opened PosixPath
  import opened Endpoint

  /** `name.lower().endswith('.md')`. */
  predicate IsMarkdownName(name: string) {
    EndsWith(Lower(name), ".md")
  }

  /** A string that ends in `.md` in any letter case. */
  predicate EndsInMd(s: string) {
    && |s| >= 3
    && s[|s| - 3] == '.'
    && (s[|s| - 2] == 'm' || s[|s| - 2] == 'M')
    && (s[|s| - 1] == 'd' || s[|s| - 1] == 'D')
  }

  /** The case-insensitive `.md` test looks at the last three characters only. */
  lemma MarkdownNameIff(name: string)
    ensures IsMarkdownName(name) <==> EndsInMd(name)
  {
    var n := |name|;
    if n >= 3 {
      LowerAt(name, n - 3);
      LowerAt(name, n - 2);
      LowerAt(name, n - 1);
      var tail := Lower(name)[n - 3..];
      assert tail == [LowerChar(name[n - 3]), LowerChar(name[n - 2]), LowerChar(name[n - 1])];
    }
  }

  /**
   * What the dialog lists for one `href`: its last `/`-segment, provided that is
   * not empty, the `href` is not a collection (does not end with `/`) and the
   * segment is a Markdown file name.
   */
  function ListedName(href: string): (r: Option<string>)
    ensures r.Some? ==> r.value != [] && '/' !in r.value
  {
    var name := BaseName(href);
    if name != [] && !EndsWith(href, "/") && IsMarkdownName(name) then Some(name) else None
  }

  /** The collection test adds nothing: an `href` ending with `/` already has an empty last segment. */
  lemma CollectionHasNoName(href: string)
    requires EndsWith(href, "/")
    ensures BaseName(href) == []
  {
    assert href[|href| - 1] == '/';
  }

  /** A listed `href` ends in `.md`, and what is listed is its basename. */
  lemma ListedEndsInMd(href: string)
    requires ListedName(href).Some?
    ensures EndsInMd(href) && ListedName(href).value == BaseName(href)
  {
    var name := BaseName(href);
    var n, k := |href|, |name|;
    MarkdownNameIff(name);
    assert name[k - 3] == href[n - 3] && name[k - 2] == href[n - 2] && name[k - 1] == href[n - 1];
  }

  /** An `href` ending in `.md` is listed. */
  lemma EndsInMdListed(href: string)
    requires EndsInMd(href)
    ensures ListedName(href).Some?
  {
    var name := BaseName(href);
    var n, k := |href|, |name|;
    BaseNameKeepsTail(href);
    assert name[k - 3..] == href[n - 3..];
    assert name[k - 3] == href[n - 3] && name[k - 2] == href[n - 2] && name[k - 1] == href[n - 1];
    MarkdownNameIff(name);
  }

  /**
   * An `href` is listed exactly when it ends in `.md` in any letter case; what is
   * listed is everything after its last `/`.
   */
  lemma ListedNameIff(href: string)
    ensures ListedName(href).Some? <==> EndsInMd(href)
    ensures ListedName(href).Some? ==> ListedName(href).value == BaseName(href)
  {
    if ListedName(href).Some? {
      ListedEndsInMd(href);
    }
    if EndsInMd(href) {
      EndsInMdListed(href);
    }
  }

  /** True when no `href` in `entries` is missing. */
  predicate Complete(entries: seq<Option<string>>) {
    forall i :: 0 <= i < |entries| ==> entries[i].Some?
  }

  /**
   * The loop's bookkeeping for any per-`href` test `pick`: what `pick` keeps of
   * each `href` (`None` for a response without `href` text), in order, up to the
   * first missing `href`, where the loop stops on an exception.
   */
  function Collect(pick: string -> Option<string>, entries: seq<Option<string>>): (names: seq<string>)
    ensures |names| <= |entries|
  {
    if entries == [] || entries[0].None? then []
    else
      var found := pick(entries[0].value);
      (if found.Some? then [found.value] else []) + Collect(pick, entries[1..])
  }

  /** The names the dialog ends up listing for the `href` values of the responses. */
  function ListedNames(entries: seq<Option<string>>): seq<string> {
    Collect(ListedName, entries)
  }

  /** Collecting is compositional: the names for a run of responses follow those for the run before it. */
  lemma {:induction false} CollectAppend(pick: string -> Option<string>, a: seq<Option<string>>, b: seq<Option<string>>)
    requires Complete(a)
    ensures Collect(pick, a + b) == Collect(pick, a) + Collect(pick, b)
  {
    if a == [] {
      assert a + b == b;
    } else {
      assert (a + b)[0] == a[0];
      assert (a + b)[1..] == a[1..] + b;
      CollectAppend(pick, a[1..], b);
    }
  }

  /** One more response with an `href` adds what `pick` keeps of it, if anything, at the end. */
  lemma CollectStep(pick: string -> Option<string>, entries: seq<Option<string>>, i: nat)
    requires i < |entries| && Complete(entries[..i]) && entries[i].Some?
    ensures Complete(entries[..i + 1])
    ensures var found := pick(entries[i].value);
      Collect(pick, entries[..i + 1]) == Collect(pick, entries[..i]) + (if found.Some? then [found.value] else [])
  {
    assert entries[..i + 1] == entries[..i] + [entries[i]];
    CollectAppend(pick, entries[..i], [entries[i]]);
    assert [entries[i]][1..] == [];
  }

  /** The first response without `href` ends the collection, and the responses are not complete. */
  lemma CollectStop(pick: string -> Option<string>, entries: seq<Option<string>>, i: nat)
    requires i < |entries| && Complete(entries[..i]) && entries[i].None?
    ensures Collect(pick, entries) == Collect(pick, entries[..i]) && !Complete(entries)
  {
    var a, b := entries[..i], entries[i + 1..];
    assert entries == a + ([None] + b);
    CollectAppend(pick, a, [None] + b);
    assert Collect(pick, [None] + b) == [];
  }

  /** Everything after the first response without `href` is ignored. */
  lemma ListedNamesStop(a: seq<Option<string>>, b: seq<Option<string>>)
    requires Complete(a)
    ensures ListedNames(a + [None] + b) == ListedNames(a)
  {
    assert a + [None] + b == a + ([None] + b);
    CollectAppend(ListedName, a, [None] + b);
    assert ListedNames([None] + b) == [];
  }

  /** A prefix is complete when its first entry is present and the rest of it is complete. */
  lemma CompleteCons(entries: seq<Option<string>>, i: nat)
    requires 0 < i <= |entries|
    ensures Complete(entries[..i]) <==> entries[0].Some? && Complete(entries[1..][..i - 1])
  {
    var whole, tail := entries[..i], entries[1..][..i - 1];
    assert forall j :: 0 <= j < i - 1 ==> tail[j] == whole[j + 1];
    assert whole[0] == entries[0];
    if entries[0].Some? && Complete(tail) {
      forall j | 0 <= j < i ensures whole[j].Some? {
        if j > 0 { assert whole[j] == tail[j - 1]; }
      }
    }
  }

  /** Response `i` comes before the first missing `href` and its `href` lists as `name`. */
  predicate ListedAt(entries: seq<Option<string>>, i: int, name: string) {
    && 0 <= i < |entries|
    && Complete(entries[..i])
    && entries[i].Some?
    && ListedName(entries[i].value) == Some(name)
  }

  /** Every listed name comes from a response before the first missing `href`. */
  lemma {:induction false} ListedNameSource(entries: seq<Option<string>>, name: string) returns (i: int)
    requires name in ListedNames(entries)
    ensures ListedAt(entries, i, name)
  {
    var rest := entries[1..];
    var found := ListedName(entries[0].value);
    assert ListedNames(entries) == (if found.Some? then [found.value] else []) + ListedNames(rest);
    if found == Some(name) {
      i := 0;
    } else {
      var j := ListedNameSource(rest, name);
      i := j + 1;
      assert entries[i] == rest[j];
      CompleteCons(entries, i);
    }
  }

  /** Every response before the first missing `href` contributes its listed name. */
  lemma {:induction false} ListedNameIncluded(entries: seq<Option<string>>, i: int, name: string)
    requires ListedAt(entries, i, name)
    ensures name in ListedNames(entries)
  {
    if i > 0 {
      CompleteCons(entries, i);
      assert entries[0] == entries[..i][0];
      var rest := entries[1..];
      assert rest[i - 1] == entries[i];
      ListedNameIncluded(rest, i - 1, name);
      var found := ListedName(entries[0].value);
      assert ListedNames(entries) == (if found.Some? then [found.value] else []) + ListedNames(rest);
    }
  }

  /** Every listed name is a non-empty file name without `/`. */
  lemma ListedNamesAreFileNames(entries: seq<Option<string>>, name: string)
    requires name in ListedNames(entries)
    ensures name != [] && '/' !in name
  {
    var i := ListedNameSource(entries, name);
  }

  /**
   * A name is listed exactly when some response before the first missing `href`
   * has an `href` whose listed name it is.
   */
  lemma ListedNamesMembership(entries: seq<Option<string>>, name: string)
    ensures name in ListedNames(entries) <==> exists i :: ListedAt(entries, i, name)
  {
    if name in ListedNames(entries) {
      var i := ListedNameSource(entries, name);
    }
    if exists i :: ListedAt(entries, i, name) {
      var i :| ListedAt(entries, i, name);
      ListedNameIncluded(entries, i, name);
    }
  }

  /** The answer to the PROPFIND, as far as the dialog uses it. */
  datatype PropfindReply =
    | Unreachable
      /** `responses` is `None` when the body is not well-formed XML. */
    | Answered(status: int, responses: Option<seq<Option<string>>>)

  /** What the dialog shows besides the list: nothing, the configuration warning, or the load error. */
  datatype Alert = Quiet | ConfigWarning | LoadError

  /** A 207 Multi-Status answer with a body that parses: the only answer the loop runs on. */
  predicate IsMultiStatus(reply: PropfindReply) {
    reply.Answered? && reply.status == 207 && reply.responses.Some?
  }

  /** The restore dialog; `fileList` is the text of the items in its list widget. */
  class FileDialog {
    const config: Config
    var fileList: seq<string>

    constructor (config: Config)
      ensures this.config == config && fileList == []
    {
      this.config := config;
      fileList := [];
    }

    /**
     * Clears the list, then (when a URL is configured) lists the collection. The
     * request goes to the collection URL; the list holds the listed names of the
     * answer when it is a parsed 207, and is empty otherwise. The load error is
     * shown for every answer other than a 207 whose responses all carry an `href`.
     */
    method LoadFiles(reply: PropfindReply) returns (request: Option<string>, alert: Alert)
      modifies this
      ensures request == if config.url == [] then None else Some(CollectionUrl(config))
      ensures alert == ConfigWarning <==> config.url == []
      ensures alert == LoadError <==> config.url != [] && !(IsMultiStatus(reply) && Complete(reply.responses.value))
      ensures fileList == if config.url != [] && IsMultiStatus(reply) then ListedNames(reply.responses.value) else []
    {
      fileList := [];
      if config.url == [] {
        return None, ConfigWarning;
      }
      request := Some(CollectionUrl(config));
      if !reply.Answered? || reply.status != 207 || reply.responses.None? {
        return request, LoadError;
      }
      var entries := reply.responses.value;
      alert := Quiet;
      var i := 0;
      while i < |entries|
        invariant 0 <= i <= |entries|
        invariant Complete(entries[..i])
        invariant fileList == ListedNames(entries[..i])
      {
        if entries[i].None? {
          alert := LoadError;
          CollectStop(ListedName, entries, i);
          return;
        }
        var href := entries[i].value;
        CollectStep(ListedName, entries, i);
        var displayName := BaseName(href);
        if displayName != [] && !EndsWith(href, "/") {
          if EndsWith(Lower(displayName), ".md") {
            fileList := fileList + [displayName];
          }
        }
        i := i + 1;
      }
      assert entries[..i] == entries;
    }
  }
}
