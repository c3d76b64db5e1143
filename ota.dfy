/** The over-the-air updater (`OTAUpdater`): the GitHub URLs derived from the
    repository URL, the remote and local version, the update check, and the
    ordered download that records the new version only once every file was
    replaced. The network is a function from URL to response (None: the
    request raised); the flash file system is a `Flash` object. */
module Ota {
  import opened Wrappers
  import opened Text

  const API_PREFIX := "https://api.github.com/repos/"
  const RAW_PREFIX := "https://raw.githubusercontent.com/"
  const VERSION_FILE := ".version"
  /** The file whose GitHub `sha` stands for the version of the repository. */
  const VERSION_PROBE := "main.py"

  /** An HTTP response: the status code, the body text and the `sha` member
      of the body read as JSON (None when there is no such member). */
  datatype Response = Response(status: int, text: string, sha: Option<string>)

  /** The attributes `__init__` sets; none of them changes afterwards. */
  datatype Updater = Updater(repoUrl: string, filesToUpdate: seq<string>, versionFile: string,
                             apiUrl: string, rawUrlBase: string)

  /** `OTAUpdater(repo_url, files_to_update)`: strip trailing slashes, split
      at '/', and build both URLs from the last two pieces. None is the
      `IndexError` raised when the stripped URL holds no '/'. */
  function NewUpdater(repoUrl: string, files: seq<string>): Option<Updater> {
    var url := RStrip(repoUrl, '/');
    var parts := Split(url, '/');
    if |parts| < 2 then None
    else
      var owner, repo := parts[|parts| - 2], parts[|parts| - 1];
      Some(Updater(url, files, VERSION_FILE,
                   API_PREFIX + owner + "/" + repo + "/contents/",
                   RAW_PREFIX + owner + "/" + repo + "/main/"))
  }

  /** Construction succeeds exactly when a '/' is left after stripping the
      trailing ones; the stored URL is the stripped one. */
  lemma NewUpdaterDefined(repoUrl: string, files: seq<string>)
    ensures NewUpdater(repoUrl, files).Some? <==> '/' in RStrip(repoUrl, '/')
    ensures NewUpdater(repoUrl, files).Some? ==>
            var u := NewUpdater(repoUrl, files).value;
            u.repoUrl == RStrip(repoUrl, '/') && u.filesToUpdate == files && u.versionFile == VERSION_FILE
  {
    SplitPieces(RStrip(repoUrl, '/'), '/');
  }

  /** For a repository URL `host/owner/repo` followed by any number of
      slashes, the API and raw URLs name exactly that owner and repository. */
  lemma GitHubUrls(host: string, owner: string, repo: string, slashes: nat, files: seq<string>)
    requires '/' !in owner && '/' !in repo && repo != []
    ensures var u := NewUpdater(host + "/" + owner + "/" + repo + Repeat('/', slashes), files);
            u.Some? &&
            u.value.repoUrl == host + "/" + owner + "/" + repo &&
            u.value.apiUrl == API_PREFIX + owner + "/" + repo + "/contents/" &&
            u.value.rawUrlBase == RAW_PREFIX + owner + "/" + repo + "/main/"
  {
    var url := host + "/" + owner + "/" + repo;
    assert url[|url| - 1] == repo[|repo| - 1];
    assert repo[|repo| - 1] in repo;
    RStripPadded(url, '/', slashes);
    SplitAppend(host, owner, '/');
    SplitAppend(host + "/" + owner, repo, '/');
    SplitWithoutSeparator(owner, '/');
    SplitWithoutSeparator(repo, '/');
    var parts := Split(url, '/');
    assert url == (host + "/" + owner) + ['/'] + repo;
    assert host + "/" + owner == host + ['/'] + owner;
    assert parts == Split(host, '/') + [owner] + [repo];
  }

  /** `_get_remote_version`: the `sha` of a 200 answer for `main.py`; None for
      any other status, a body without `sha`, or a request that raised. */
  function RemoteVersion(u: Updater, get: string -> Option<Response>): Option<string> {
    var r := get(u.apiUrl + VERSION_PROBE);
    if r.Some? && r.value.status == 200 && r.value.sha.Some? then r.value.sha else None
  }

  /** `_get_local_version`: the stripped contents of the version file, None
      when the file is missing. */
  function LocalVersion(versionFile: Option<string>): Option<string> {
    if versionFile.Some? then Some(Strip(versionFile.value)) else None
  }

  /** `check_for_updates`: nothing without a (non-empty) remote version;
      otherwise whether it differs from the local one, a missing file
      counting as different. */
  function CheckForUpdates(u: Updater, get: string -> Option<Response>, versionFile: Option<string>): bool {
    var remote := RemoteVersion(u, get);
    if remote.None? || remote.value == "" then false
    else Some(remote.value) != LocalVersion(versionFile)
  }

  /** Without a version file, any remote version is an update; a version file
      holding the remote version, even with blank padding, is up to date. */
  lemma CheckForUpdatesCases(u: Updater, get: string -> Option<Response>, v: string, lead: string, trail: string)
    requires RemoteVersion(u, get) == Some(v) && v != [] && IsStripped(v)
    requires AllSpace(lead) && AllSpace(trail)
    ensures CheckForUpdates(u, get, None)
    ensures !CheckForUpdates(u, get, Some(lead + v + trail))
  {
    StripPadded(lead, v, trail);
  }

  // ---------------------------------------------------------------------------
  // Installing

  /** The file `name` downloads: the request did not raise and answered 200. */
  predicate Downloads(name: string, base: string, get: string -> Option<Response>) {
    get(base + name).Some? && get(base + name).value.status == 200
  }

  /** The files after the download loop over `names`, and whether it reached
      the end: every 200 answer is written at once, and the first other
      answer (or exception) stops the loop with the files written so far. */
  function Install(files: map<string, string>, names: seq<string>, base: string,
                   get: string -> Option<Response>): (map<string, string>, bool)
    decreases |names|
  {
    if names == [] then (files, true)
    else if Downloads(names[0], base, get) then
      Install(files[names[0] := get(base + names[0]).value.text], names[1..], base, get)
    else (files, false)
  }

  /** The position of the first file that does not download (`|names|` when
      all do). */
  function FirstFailure(names: seq<string>, base: string, get: string -> Option<Response>): (k: nat)
    ensures k <= |names|
    ensures forall i :: 0 <= i < k ==> Downloads(names[i], base, get)
    ensures k < |names| ==> !Downloads(names[k], base, get)
    decreases |names|
  {
    if names == [] || !Downloads(names[0], base, get) then 0
    else 1 + FirstFailure(names[1..], base, get)
  }

  /** The loop succeeds exactly when every file downloads. It replaces the
      files before the first failure with their downloaded text, in order;
      every other file, including the failed one and all after it, keeps
      its old contents or stays absent (there is no rollback and nothing
      beyond the failure is touched). */
  lemma {:induction false} InstallSpec(files: map<string, string>, names: seq<string>, base: string,
                                       get: string -> Option<Response>)
    ensures var (after, ok) := Install(files, names, base, get);
            var k := FirstFailure(names, base, get);
            && (ok <==> k == |names|)
            && (forall i :: 0 <= i < k ==> names[i] in after && after[names[i]] == get(base + names[i]).value.text)
            && (forall n :: n !in names[..k] ==> (n in after <==> n in files) && (n in files ==> after[n] == files[n]))
    decreases |names|
  {
    if names != [] && Downloads(names[0], base, get) {
      var name := names[0];
      var files' := files[name := get(base + name).value.text];
      InstallSpec(files', names[1..], base, get);
      var (after, ok) := Install(files', names[1..], base, get);
      var k' := FirstFailure(names[1..], base, get);
      assert names[..k' + 1] == [name] + names[1..][..k'];
      forall i | 0 <= i < k' + 1
        ensures names[i] in after && after[names[i]] == get(base + names[i]).value.text
      {
        if i > 0 {
          assert names[i] == names[1..][i - 1];
        } else if name in names[1..][..k'] {
          var j :| 0 <= j < k' && names[1..][j] == name;
          assert names[1..][j] == names[1..][..k'][j];
        }
      }
    }
  }

  /** The device's flash file system, as far as the updater writes it. */
  class Flash {
    var files: map<string, string>

    constructor (initial: map<string, string>)
      ensures files == initial
    {
      files := initial;
    }

    /** `open(name, 'w').write(text)`. */
    method Write(name: string, text: string)
      modifies this
      ensures files == old(files)[name := text]
    {
      files := files[name := text];
    }
  }

  /** `download_and_install_updates`: fetch the remote version, then each file
      of `files_to_update` in order from `raw_url_base + filename`, stopping
      at the first failure; the version file is written last, only after all
      files were replaced. */
  method DownloadAndInstallUpdates(u: Updater, flash: Flash, get: string -> Option<Response>) returns (ok: bool)
    modifies flash
    ensures var remote := RemoteVersion(u, get);
            if remote.None? || remote.value == "" then !ok && flash.files == old(flash.files)
            else
              var (after, done) := Install(old(flash.files), u.filesToUpdate, u.rawUrlBase, get);
              ok == done && flash.files == if done then after[u.versionFile := remote.value] else after
  {
    var remote := RemoteVersion(u, get);
    if remote.None? || remote.value == "" {
      return false;
    }
    var names := u.filesToUpdate;
    for i := 0 to |names|
      invariant Install(old(flash.files), names, u.rawUrlBase, get) == Install(flash.files, names[i..], u.rawUrlBase, get)
    {
      var name := names[i];
      assert names[i..][1..] == names[i + 1..];
      var response := get(u.rawUrlBase + name);
      if response.Some? && response.value.status == 200 {
        flash.Write(name, response.value.text);
      } else {
        return false;
      }
    }
    assert names[|names|..] == [];
    flash.Write(u.versionFile, remote.value);
    return true;
  }

  /** After a successful install the device is up to date: checking again
      against the same remote version finds nothing new. */
  lemma UpToDateAfterInstall(u: Updater, get: string -> Option<Response>, files: map<string, string>)
    requires RemoteVersion(u, get).Some? && IsStripped(RemoteVersion(u, get).value)
    ensures !CheckForUpdates(u, get, Some(files[u.versionFile := RemoteVersion(u, get).value][u.versionFile]))
  {
    var v := RemoteVersion(u, get).value;
    StripPadded("", v, "");
    assert "" + v + "" == v;
  }
}
