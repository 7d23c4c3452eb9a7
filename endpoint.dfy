/**
 * The WebDAV endpoint configuration and the three places `main.py` turns it
 * into a URL: the PROPFIND collection URL of the file dialog, the PUT URL of a
 * backup and the GET URL of a restore.
 */
module Endpoint {
  import opened Text

  /**
   * The `webdav_config` dictionary. A missing `remote_dir` key reads as `""`
   * (`config.get("remote_dir", "")`).
   */
  datatype Config = Config(url: string, username: string, password: string, remoteDir: string)

  const Slash: set<char> := {'/'}

  /** `s.strip('/')`. */
  function StripSlashes(s: string): (r: string)
    ensures r == [] || (r[0] != '/' && r[|r| - 1] != '/')
  {
    Strip(s, Slash)
  }

  /**
   * The collection URL the file dialog lists: the URL and the remote directory,
   * both stripped of `/` at either end, joined by one `/` when the directory is
   * not empty.
   */
  function CollectionUrl(c: Config): (r: string)
    ensures r != [] ==> r[|r| - 1] != '/'
  {
    var url := StripSlashes(c.url);
    var dir := StripSlashes(c.remoteDir);
    if dir != [] then url + "/" + dir else url
  }

  /**
   * The URL of a backup: `url.strip('/') + '/' + remote_path`, where the remote
   * path is the file name, under the stripped directory when there is one.
   * It is the collection URL followed by `/` and the name.
   */
  function PutUrl(c: Config, name: string): (r: string)
    ensures r == CollectionUrl(c) + "/" + name
  {
    var dir := StripSlashes(c.remoteDir);
    var remotePath := if dir != [] then dir + "/" + name else name;
    StripSlashes(c.url) + "/" + remotePath
  }

  /**
   * The URL of a restore: `{url}/{remote_dir}/{filename}`, or `{url}/{filename}`
   * without a directory, with both parts stripped of `/`.
   * It is the collection URL followed by `/` and the name.
   */
  function GetUrl(c: Config, name: string): (r: string)
    ensures r == CollectionUrl(c) + "/" + name
  {
    var url := StripSlashes(c.url);
    var dir := StripSlashes(c.remoteDir);
    if dir != [] then url + "/" + dir + "/" + name else url + "/" + name
  }

  /**
   * The stripped URL is followed by nothing, or by exactly one `/` and then a
   * character other than `/`; the URL part itself does not end with `/`.
   */
  lemma CollectionUrlJoin(c: Config)
    ensures var u, r := StripSlashes(c.url), CollectionUrl(c);
      && |u| <= |r| && r[..|u|] == u
      && (u != [] ==> u[|u| - 1] != '/')
      && (r == u || (|r| >= |u| + 2 && r[|u|] == '/' && r[|u| + 1] != '/'))
  {
    var u, d := StripSlashes(c.url), StripSlashes(c.remoteDir);
    if d != [] {
      assert CollectionUrl(c) == u + "/" + d;
      assert (u + "/" + d)[|u| + 1] == d[0];
    }
  }

  /** How many `/` the user typed around the URL or the directory does not matter. */
  lemma CollectionUrlIgnoresSlashes(c: Config, a: string, b: string, x: string, y: string)
    requires AllIn(a, Slash) && AllIn(b, Slash) && AllIn(x, Slash) && AllIn(y, Slash)
    ensures CollectionUrl(Config(a + c.url + b, c.username, c.password, x + c.remoteDir + y)) == CollectionUrl(c)
  {
    StripIgnoresPadding(a, c.url, b, Slash);
    StripIgnoresPadding(x, c.remoteDir, y, Slash);
  }

  /** With URL and directory already free of `/` at their ends, the collection URL is the plain join. */
  lemma CollectionUrlOfClean(c: Config)
    requires c.url == [] || (c.url[0] != '/' && c.url[|c.url| - 1] != '/')
    requires c.remoteDir == [] || (c.remoteDir[0] != '/' && c.remoteDir[|c.remoteDir| - 1] != '/')
    ensures CollectionUrl(c) == if c.remoteDir == [] then c.url else c.url + "/" + c.remoteDir
  {
    StripClean(c.url, Slash);
    StripClean(c.remoteDir, Slash);
  }
}
