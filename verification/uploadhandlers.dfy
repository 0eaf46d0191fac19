/**
 * The string side of the upload handlers: how a repository reference is
 * turned into a clone URL, how a Google Drive file id, download URL and
 * file name are derived, and how a Dropbox sharing link is rewritten into a
 * direct link and named. Cloning, HTTP and file writes are left out; the
 * `Content-Disposition` header is an input.
 */
module UploadHandlers {
  import opened Wrappers
  import opened PyStrings

  // ---------------------------------------------------------------------
  // GitHub.

  /** The host a bare `owner/repo` reference is resolved against. */
  const GitHubPrefix := "https://github.com/"

  predicate HasScheme(url: string) {
    StartsWith(url, "http://") || StartsWith(url, "https://")
  }

  /** The URL cleaning of `clone_repo`: a reference without an HTTP scheme
      is put under GitHub, and `.git` is appended unless present. */
  function NormalizeRepoUrl(url: string): (r: string)
    ensures HasScheme(r) && EndsWith(r, ".git")
    ensures r == url <==> HasScheme(url) && EndsWith(url, ".git")
    ensures HasScheme(url) ==> r == url || r == url + ".git"
    ensures !HasScheme(url) ==> r == GitHubPrefix + url || r == GitHubPrefix + url + ".git"
  {
    var withScheme := if HasScheme(url) then url else GitHubPrefix + url;
    assert StartsWith(withScheme, "http://") || StartsWith(withScheme, "https://") by {
      if !HasScheme(url) {
        assert withScheme[..8] == "https://";
      }
    }
    if EndsWith(withScheme, ".git") then withScheme
    else
      var r := withScheme + ".git";
      assert r[|r| - 4..] == ".git";
      assert r[..|withScheme|] == withScheme;
      assert StartsWith(r, "http://") ==> r[..7] == withScheme[..7];
      assert StartsWith(withScheme, "https://") ==> r[..8] == withScheme[..8];
      r
  }

  /** Normalising an already normalised URL changes nothing. */
  lemma NormalizeIdempotent(url: string)
    ensures NormalizeRepoUrl(NormalizeRepoUrl(url)) == NormalizeRepoUrl(url)
  {
    var r := NormalizeRepoUrl(url);
    assert HasScheme(r) && EndsWith(r, ".git");
  }

  /** A reference without a scheme or `.git` gets both. */
  lemma NormalizeBare(u: string)
    requires !StartsWith(u, "http://") && !StartsWith(u, "https://")
    requires !EndsWith(GitHubPrefix + u, ".git")
    ensures NormalizeRepoUrl(u) == GitHubPrefix + u + ".git"
  {
  }

  /** A bare `owner/repo` reference becomes its GitHub clone URL. */
  lemma NormalizeOwnerRepo()
    ensures NormalizeRepoUrl("owner/repo") == GitHubPrefix + "owner/repo" + ".git"
  {
    var u := "owner/repo";
    assert !StartsWith(u, "http://") && !StartsWith(u, "https://") by {
      assert u[0] != 'h';
    }
    assert !EndsWith(GitHubPrefix + u, ".git") by {
      var w := GitHubPrefix + u;
      assert w[|w| - 1] == u[|u| - 1] != 't';
    }
    NormalizeBare(u);
  }

  // ---------------------------------------------------------------------
  // Google Drive.

  const FileMarker := "/file/d/"
  const IdMarker := "id="
  const OpenMarker := "/open?id="

  /** The first field of `s` after the first `marker`, up to `delim`:
      `s.split(marker)[1].split(delim)[0]`. */
  function FieldAfter(s: string, marker: string, delim: char): (r: string)
    requires marker != [] && Contains(s, marker)
    ensures !Contains(r, [delim])
  {
    var pieces := Split(s, marker);
    Split(pieces[1], [delim])[0]
  }

  /** `extract_file_id`: the id after `/file/d/` up to the next `/`, else
      the id after the first `id=` up to the next `&`, else the same after
      `/open?id=`, else nothing. */
  function ExtractFileId(url: string): (r: Option<string>)
    ensures r.Some? <==> Contains(url, FileMarker) || Contains(url, IdMarker) || Contains(url, OpenMarker)
    ensures Contains(url, FileMarker) ==> r.Some? && !Contains(r.value, "/")
    ensures !Contains(url, FileMarker) && Contains(url, IdMarker) ==> r.Some? && !Contains(r.value, "&")
  {
    if Contains(url, FileMarker) then Some(FieldAfter(url, FileMarker, '/'))
    else if Contains(url, IdMarker) then Some(FieldAfter(url, IdMarker, '&'))
    else if Contains(url, OpenMarker) then Some(FieldAfter(url, OpenMarker, '&'))
    else None
  }

  /** Every `/open?id=` URL contains `id=`, so the third branch of
      `extract_file_id` is never taken and a URL yields an id exactly when
      it has one of the first two markers. */
  lemma OpenBranchUnreachable(url: string)
    ensures Contains(url, OpenMarker) ==> Contains(url, IdMarker)
    ensures ExtractFileId(url).Some? <==> Contains(url, FileMarker) || Contains(url, IdMarker)
  {
    if Contains(url, OpenMarker) {
      var k :| 0 <= k <= |url| && IsAt(url, OpenMarker, k);
      assert url[k + 6..k + 9] == url[k..k + 9][6..9];
      assert IsAt(url, IdMarker, k + 6);
    }
  }

  /** The field after the first marker is recovered exactly when the
      marker's first occurrence is the one after `a`, the field holds no
      delimiter and no marker starts inside it, and whatever follows it
      starts with the delimiter. */
  lemma FieldRoundTrip(a: string, marker: string, id: string, delim: char, b: string)
    requires marker != []
    requires forall k :: 0 <= k < |a| ==> !IsAt(a + marker, marker, k)
    requires forall i :: 0 <= i < |id| ==> id[i] != delim
    requires b == [] || b[0] == delim
    requires forall k :: 0 <= k < |id| ==> !IsAt(id + b, marker, k)
    ensures Contains(a + marker + id + b, marker)
    ensures FieldAfter(a + marker + id + b, marker, delim) == id
  {
    var t := id + b;
    var u := a + marker + t;
    assert a + marker + id + b == u;
    SplitAfterFirst(a, marker, t);
    assert u[|a|..|a| + |marker|] == marker;
    assert IsAt(u, marker, |a|);
    assert Split(u, marker)[1] == Split(t, marker)[0];
    var h := HeadKeepsField(marker, id, delim, b);
    NoCharBefore(id, delim);
    if h == id {
      SplitNoSep(id, [delim]);
    } else {
      SplitAfterFirst(id, [delim], h[|id| + 1..]);
    }
  }

  /** The first piece of `id + b` split at `marker` is `id` followed by
      nothing or by a delimiter, when no marker starts inside `id`. */
  lemma HeadKeepsField(marker: string, id: string, delim: char, b: string) returns (h: string)
    requires marker != []
    requires b == [] || b[0] == delim
    requires forall k :: 0 <= k < |id| ==> !IsAt(id + b, marker, k)
    ensures h == Split(id + b, marker)[0]
    ensures h == id || (|h| > |id| && h == id + [delim] + h[|id| + 1..])
  {
    var t := id + b;
    h := Split(t, marker)[0];
    assert |h| >= |id| && h[..|id|] == id && (|h| > |id| ==> h[|id|] == delim) by {
      SplitHeadShape(t, marker);
      assert |h| >= |id|;
      assert h[..|id|] == t[..|h|][..|id|];
      if |h| > |id| {
        assert h[|id|] == t[|id|];
      }
    }
    if |h| > |id| {
      Reassemble(h, id, delim);
    }
  }

  /** A string that starts with `id` and then `delim`. */
  lemma Reassemble(h: string, id: string, delim: char)
    requires |h| > |id| && h[..|id|] == id && h[|id|] == delim
    ensures h == id + [delim] + h[|id| + 1..]
  {
    assert h == h[..|id|] + [h[|id|]] + h[|id| + 1..];
  }

  /** A `/file/d/` sharing URL yields the id between the marker and the
      next `/`. */
  lemma FileIdRoundTrip(a: string, id: string, b: string)
    requires forall k :: 0 <= k < |a| ==> !IsAt(a + FileMarker, FileMarker, k)
    requires forall i :: 0 <= i < |id| ==> id[i] != '/'
    requires b == [] || b[0] == '/'
    ensures ExtractFileId(a + FileMarker + id + b) == Some(id)
  {
    forall k | 0 <= k < |id| ensures !IsAt(id + b, FileMarker, k) {
      if k + |FileMarker| <= |id + b| {
        assert (id + b)[k..k + |FileMarker|][0] == id[k];
      }
    }
    FieldRoundTrip(a, FileMarker, id, '/', b);
  }

  /** An `id=` URL without `/file/d/` yields the id between the first
      `id=` and the next `&`. */
  lemma IdRoundTrip(a: string, id: string, b: string)
    requires !Contains(a + IdMarker + id + b, FileMarker)
    requires forall k :: 0 <= k < |a| ==> !IsAt(a + IdMarker, IdMarker, k)
    requires forall i :: 0 <= i < |id| ==> id[i] != '&'
    requires !Contains(id, IdMarker)
    requires b == [] || b[0] == '&'
    ensures ExtractFileId(a + IdMarker + id + b) == Some(id)
  {
    forall k | 0 <= k < |id| ensures !IsAt(id + b, IdMarker, k) {
      if k + 3 <= |id| {
        assert id[k..k + 3] == (id + b)[k..k + 3];
        assert !IsAt(id, IdMarker, k);
      } else if k + 3 <= |id + b| {
        var w := (id + b)[k..k + 3];
        assert w[|id| - k] == b[0] == '&';
        assert IdMarker[|id| - k] != '&';
      }
    }
    FieldRoundTrip(a, IdMarker, id, '&', b);
  }

  /** The Drive web site. */
  const DriveSite := "https://drive.google.com"

  /** The usual Drive sharing link yields its file id. */
  lemma ShareLinkFileId(id: string)
    requires forall i :: 0 <= i < |id| ==> id[i] != '/'
    ensures ExtractFileId(DriveSite + FileMarker + id + "/view") == Some(id)
  {
    var a := DriveSite;
    forall k | 0 <= k < |a| ensures !IsAt(a + FileMarker, FileMarker, k) {
      assert (a + FileMarker)[k + 1] == FileMarker[1] ==> k + 1 == |a| + 1;
    }
    FileIdRoundTrip(a, id, "/view");
  }

  /** The direct-download endpoint, up to its `id=` parameter. */
  const DriveExport := DriveSite + "/uc?export=download&"

  /** The download URL of `GoogleDriveHandler.download_file`: the id
      appended to the export endpoint's `id=`, and no URL when no id, or an
      empty one, can be extracted. */
  function DriveDownloadUrl(url: string): (r: Option<string>)
    ensures r.Some? <==> ExtractFileId(url).Some? && ExtractFileId(url).value != []
    ensures r.Some? ==> StartsWith(r.value, DriveExport + IdMarker)
  {
    match ExtractFileId(url)
    case None => None
    case Some(id) =>
      if id == [] then None
      else
        var r := DriveExport + IdMarker + id;
        assert r[..|DriveExport + IdMarker|] == DriveExport + IdMarker;
        Some(r)
  }

  /** The download URL carries the id: extracting from it gives back the
      id extracted from the sharing URL, when that id holds no `/`, `&` or
      `id=`. */
  lemma DownloadUrlKeepsId(url: string)
    requires ExtractFileId(url).Some?
    requires var id := ExtractFileId(url).value;
      id != [] && !Contains(id, IdMarker)
      && forall i :: 0 <= i < |id| ==> id[i] != '/' && id[i] != '&'
    ensures DriveDownloadUrl(url).Some?
    ensures ExtractFileId(DriveDownloadUrl(url).value) == ExtractFileId(url)
  {
    var id := ExtractFileId(url).value;
    ExportUrlId(id);
    assert DriveDownloadUrl(url).value == DriveExport + IdMarker + id;
  }

  /** Extraction from an export URL returns its id. */
  lemma ExportUrlId(id: string)
    requires !Contains(id, IdMarker)
    requires forall i :: 0 <= i < |id| ==> id[i] != '/' && id[i] != '&'
    ensures ExtractFileId(DriveExport + IdMarker + id) == Some(id)
  {
    ExportIdMarkerFirst();
    ExportHasNoFileMarker(id);
    assert DriveExport + IdMarker + id + [] == DriveExport + IdMarker + id;
    IdRoundTrip(DriveExport, id, []);
  }

  /** The only `id=` of the export endpoint is its parameter. */
  lemma ExportIdMarkerFirst()
    ensures forall k :: 0 <= k < |DriveExport| ==> !IsAt(DriveExport + IdMarker, IdMarker, k)
  {
    var u := DriveExport + IdMarker;
    forall k | 0 <= k < |DriveExport| ensures !IsAt(u, IdMarker, k) {
      assert u[k..k + 3][0] == u[k];
      assert u[k..k + 3][1] == u[k + 1];
      assert u[k] == DriveExport[k];
      assert k + 1 < |DriveExport| ==> u[k + 1] == DriveExport[k + 1];
    }
  }

  /** An export URL for an id without `/` has no `/file/d/` in it: the
      export prefix has no `f` and ends in `&`, and nothing after it is a
      `/`. */
  lemma ExportHasNoFileMarker(id: string)
    requires forall i :: 0 <= i < |id| ==> id[i] != '/'
    ensures !Contains(DriveExport + IdMarker + id, FileMarker)
  {
    var a := DriveExport;
    var u := a + IdMarker + id;
    ExportHasNoF();
    assert a[|a| - 1] == '&';
    forall k | 0 <= k && k + 8 <= |u| ensures !IsAt(u, FileMarker, k) {
      assert u[k..k + 8][0] == u[k] && u[k..k + 8][1] == u[k + 1];
      if k + 1 < |a| {
        assert u[k + 1] == a[k + 1] != 'f';
      } else if k + 1 == |a| {
        assert u[k] == '&';
      } else if k < |a| + 3 {
        assert u[k] == IdMarker[k - |a|];
      } else {
        assert u[k] == id[k - |a| - 3];
      }
    }
  }

  lemma ExportHasNoF()
    ensures forall k :: 0 <= k < |DriveExport| ==> DriveExport[k] != 'f'
  {
    var tail := "/uc?export=download&";
    assert forall k :: 0 <= k < |DriveSite| ==> DriveSite[k] != 'f';
    assert forall k :: 0 <= k < |tail| ==> tail[k] != 'f';
    assert DriveExport == DriveSite + tail;
  }

  /** The file name of a Drive download: the text after the first
      `filename=` of the `Content-Disposition` header with `"` stripped
      from both ends, or `drive_file_<id>` when the header has none. */
  function DriveFileName(disposition: string, id: string): (r: string)
    ensures Contains(disposition, "filename=") ==> r == [] || (r[0] != '"' && r[|r| - 1] != '"')
    ensures !Contains(disposition, "filename=") ==> r == DriveFilePrefix + id
  {
    if Contains(disposition, "filename=") then
      StripBy(Split(disposition, "filename=")[1], Only('"'))
    else
      DriveFilePrefix + id
  }

  /** The fallback name's prefix. */
  const DriveFilePrefix := "drive_file_"

  /** A quoted file name in a `Content-Disposition` header is the name of
      the download. */
  lemma QuotedFileName(pre: string, name: string, id: string)
    requires forall k :: 0 <= k < |pre| ==> !IsAt(pre + "filename=", "filename=", k)
    requires name == [] || (name[0] != '"' && name[|name| - 1] != '"')
    requires !Contains("\"" + name + "\"", "filename=")
    ensures DriveFileName(pre + "filename=" + ("\"" + name + "\""), id) == name
  {
    var t := "\"" + name + "\"";
    var d := pre + "filename=" + t;
    SplitAfterFirst(pre, "filename=", t);
    assert d[|pre|..|pre| + 9] == "filename=";
    assert IsAt(d, "filename=", |pre|);
    SplitNoSep(t, "filename=");
    StripWrapped('"', name);
  }

  // ---------------------------------------------------------------------
  // Dropbox.

  const DropboxHost := "www.dropbox.com"
  const DirectHost := "dl.dropboxusercontent.com"

  /** The direct-link rewrite of `DropboxHandler.download_file`: on a
      Dropbox URL the host is replaced everywhere, then `?dl=0` becomes
      `?dl=1`, or `?dl=1` is appended when no `dl=` is present at all. */
  function DropboxDirectUrl(url: string): (r: string)
    ensures !Contains(url, DropboxHost) ==> r == url
    ensures Contains(url, DropboxHost) ==> Contains(r, "dl=")
  {
    if Contains(url, DropboxHost) then DownloadParam(ReplaceAll(url, DropboxHost, DirectHost))
    else url
  }

  /** The `dl` query handling of the rewrite: `?dl=0` becomes `?dl=1`
      everywhere, a link without any `dl=` gets `?dl=1` appended, and any
      other `dl=` is left alone. */
  function DownloadParam(d: string): (r: string)
    ensures Contains(r, "dl=")
    ensures !Contains(d, "?dl=0") && Contains(d, "dl=") ==> r == d
  {
    if Contains(d, "?dl=0") then
      var r := ReplaceAll(d, "?dl=0", "?dl=1");
      ContainsPart(r, "?dl=1", 1, 4);
      assert "?dl=1"[1..4] == "dl=";
      r
    else if !Contains(d, "dl=") then
      var r := d + "?dl=1";
      assert r[|d| + 1..|d| + 4] == "dl=";
      assert IsAt(r, "dl=", |d| + 1);
      r
    else d
  }

  const Https := "https://"

  /** A sharing link's scheme and host, and what they are rewritten to. */
  const DropboxBase := Https + DropboxHost
  const DirectBase := Https + DirectHost

  /** A sharing link without a `dl=` parameter is served from the content
      host with `?dl=1` appended. */
  lemma DropboxShareLink(path: string)
    requires !Contains(path, DropboxHost) && !Contains(path, "dl=")
    ensures DropboxDirectUrl(DropboxBase + path) == DirectBase + path + "?dl=1"
  {
    var d := RewriteHost(path);
    assert !Contains(d, "dl=") by {
      DirectBaseNoDl(path);
      ContainsPastPrefix(DirectBase, path, "dl=");
    }
    ParamAppended(d);
  }

  /** No `dl=` starts inside the rewritten scheme and host. */
  lemma DirectBaseNoDl(path: string)
    ensures forall k :: 0 <= k < |DirectBase| ==> !IsAt(DirectBase + path, "dl=", k)
  {
    var u := DirectBase + path;
    forall k | 0 <= k < |DirectBase| ensures !IsAt(u, "dl=", k) {
      if k + 3 <= |u| {
        assert u[k..k + 3][0] == u[k] == DirectBase[k];
        assert k + 2 < |DirectBase| ==> u[k..k + 3][1] == DirectBase[k + 1] && u[k..k + 3][2] == DirectBase[k + 2];
      }
    }
  }

  /** A preview link `...?dl=0` is turned into the download link `...?dl=1`
      on the content host. */
  lemma DropboxPreviewLink(path: string)
    requires !Contains(path, DropboxHost)
    requires forall i :: 0 <= i < |path| ==> path[i] != '?'
    ensures DropboxDirectUrl(DropboxBase + (path + "?dl=0")) == DirectBase + path + "?dl=1"
  {
    assert !Contains(path + "?dl=0", DropboxHost) by {
      NoNewOccurrence(path, "?dl=0", DropboxHost);
    }
    var d := RewriteHost(path + "?dl=0");
    assert DownloadParam(d) == DirectBase + path + "?dl=1" by {
      var p := DirectBase + path;
      assert d == p + "?dl=0";
      DirectBaseNoQuery();
      forall i | 0 <= i < |p| ensures p[i] != '?' {
        if i < |DirectBase| { assert p[i] == DirectBase[i]; } else { assert p[i] == path[i - |DirectBase|]; }
      }
      ParamFlipped(p);
    }
  }

  lemma DirectBaseNoQuery()
    ensures forall k :: 0 <= k < |DirectBase| ==> DirectBase[k] != '?'
  {
    assert forall k :: 0 <= k < |Https| ==> Https[k] != '?';
    assert forall k :: 0 <= k < |DirectHost| ==> DirectHost[k] != '?';
  }

  /** A query that mentions `?dl=0` mentions `dl=`. */
  lemma PreviewHasDl(s: string)
    ensures Contains(s, "?dl=0") ==> Contains(s, "dl=")
  {
    if Contains(s, "?dl=0") {
      ContainsPart(s, "?dl=0", 1, 4);
      assert "?dl=0"[1..4] == "dl=";
    }
  }

  /** Without any `dl=`, the parameter is appended. */
  lemma ParamAppended(p: string)
    requires !Contains(p, "dl=")
    ensures DownloadParam(p) == p + "?dl=1"
  {
    PreviewHasDl(p);
  }

  /** A single trailing `?dl=0` becomes `?dl=1`. */
  lemma ParamFlipped(p: string)
    requires forall i :: 0 <= i < |p| ==> p[i] != '?'
    ensures DownloadParam(p + "?dl=0") == p + "?dl=1"
  {
    assert !Contains([], "?dl=0");
    ReplaceOnly(p, "?dl=0", [], "?dl=1");
    assert p + "?dl=0" + [] == p + "?dl=0";
    assert p + "?dl=1" + [] == p + "?dl=1";
  }

  /** Replacing the host of `https://www.dropbox.com` + `rest`, when the
      rest mentions no other Dropbox host. */
  lemma RewriteHost(rest: string) returns (d: string)
    requires !Contains(rest, DropboxHost)
    ensures Contains(DropboxBase + rest, DropboxHost)
    ensures d == ReplaceAll(DropboxBase + rest, DropboxHost, DirectHost)
    ensures d == DirectBase + rest
  {
    ReplaceOnly(Https, DropboxHost, rest, DirectHost);
    d := DirectBase + rest;
  }

  /** The file name of a Dropbox download: the last `/`-segment of the
      sharing URL, cut at its first `?`. */
  function DropboxFileName(url: string): (r: string)
    ensures !Contains(r, "/") && !Contains(r, "?")
  {
    var last := LastPiece(url, "/");
    var name := Split(last, "?")[0];
    SplitHeadShape(last, "?");
    PrefixAvoids(last, name, "/");
    name
  }

  /** The name is the segment after the last `/`, without the query. */
  lemma DropboxNameRoundTrip(dir: string, name: string, query: string)
    requires forall i :: 0 <= i < |name| ==> name[i] != '/' && name[i] != '?'
    requires forall i :: 0 <= i < |query| ==> query[i] != '/'
    requires query == [] || query[0] == '?'
    ensures DropboxFileName(dir + "/" + (name + query)) == name
  {
    var t := name + query;
    forall i | 0 <= i < |t| ensures t[i] != '/' {
      if i < |name| { assert t[i] == name[i]; } else { assert t[i] == query[i - |name|]; }
    }
    NoCharBefore(t, '/');
    SplitLast(dir, "/", t);
    QueryCut(name, query);
  }

  /** Cutting `name + query` at its first `?` gives `name`. */
  lemma QueryCut(name: string, query: string)
    requires forall i :: 0 <= i < |name| ==> name[i] != '?'
    requires query == [] || query[0] == '?'
    ensures Split(name + query, "?")[0] == name
  {
    NoCharBefore(name, '?');
    if query == [] {
      assert name + query == name;
      SplitNoSep(name, "?");
    } else {
      assert name + query == name + "?" + query[1..];
      SplitAfterFirst(name, "?", query[1..]);
    }
  }
}
