/** `file_url_to_path_win` (main.py, lines 14-21) and the part of
    `urllib.parse.urlparse` it relies on. */
module FileUrl {
  import opened Strings
  import opened Percent

  /** The five components `urlsplit` returns. */
  datatype SplitUrl = SplitUrl(scheme: string, netloc: string, path: string, query: string, fragment: string)

  /** The characters `urlsplit` strips from the front of a URL: C0 controls and space. */
  predicate IsC0OrSpace(c: char)
  {
    c as int <= 0x20
  }

  /** The characters `urlsplit` deletes everywhere: tab, carriage return, line feed. */
  predicate IsUnsafe(c: char)
  {
    c == '\t' || c == '\r' || c == '\n'
  }

  /** `s.lstrip(...)` of C0 controls and space. */
  function LStrip(s: string): (r: string)
    ensures EndsWith(s, r)
    ensures r != [] ==> !IsC0OrSpace(r[0])
    ensures forall i :: 0 <= i < |s| - |r| ==> IsC0OrSpace(s[i])
  {
    s[LeadingBlanks(s, 0)..]
  }

  /** The first index from `k` on that holds neither a control nor a space. */
  function LeadingBlanks(s: string, k: nat): (r: nat)
    requires k <= |s|
    ensures k <= r <= |s|
    ensures r < |s| ==> !IsC0OrSpace(s[r])
    ensures forall j :: k <= j < r ==> IsC0OrSpace(s[j])
    decreases |s| - k
  {
    if k == |s| || !IsC0OrSpace(s[k]) then k else LeadingBlanks(s, k + 1)
  }

  function RemoveUnsafe(s: string): (r: string)
    ensures |r| <= |s|
    ensures forall i :: 0 <= i < |r| ==> !IsUnsafe(r[i])
    ensures NoUnsafe(s) ==> r == s
  {
    if s == [] then []
    else if IsUnsafe(s[0]) then RemoveUnsafe(s[1..])
    else [s[0]] + RemoveUnsafe(s[1..])
  }

  predicate IsAsciiLetter(c: char)
  {
    'a' <= c <= 'z' || 'A' <= c <= 'Z'
  }

  /** `urllib.parse.scheme_chars`. */
  predicate IsSchemeChar(c: char)
  {
    IsAsciiLetter(c) || '0' <= c <= '9' || c == '+' || c == '-' || c == '.'
  }

  /** The scheme is the text before the first ':' when it is non-empty, starts with an
      ASCII letter and consists of scheme characters; it is returned lower-cased. */
  function SplitScheme(url: string): (r: (string, string))
  {
    var i := Find(url, ':');
    if i > 0 && IsAsciiLetter(url[0]) && forall j | 0 <= j < i :: IsSchemeChar(url[j]) then
      (LowerAscii(url[..i]), url[i + 1..])
    else ("", url)
  }

  predicate IsNetlocEnd(c: char)
  {
    c == '/' || c == '?' || c == '#'
  }

  /** The first of '/', '?', '#' from index `k` on, or the length when there is none. */
  function NetlocEnd(s: string, k: nat): (r: nat)
    requires k <= |s|
    ensures k <= r <= |s|
    ensures r < |s| ==> IsNetlocEnd(s[r])
    ensures forall j :: k <= j < r ==> !IsNetlocEnd(s[j])
    decreases |s| - k
  {
    if k == |s| then k
    else if IsNetlocEnd(s[k]) then k
    else NetlocEnd(s, k + 1)
  }

  /** `s.split(c, 1)` when `c in s`, otherwise `(s, "")`. */
  function SplitOnce(s: string, c: char): (r: (string, string))
    ensures c !in s ==> r == (s, "")
    ensures c in s ==> s == r.0 + [c] + r.1 && c !in r.0
  {
    var i := Find(s, c);
    if i < 0 then (s, "")
    else
      assert s == s[..i] + [c] + s[i + 1..];
      (s[..i], s[i + 1..])
  }

  /** `urlsplit(url)` without its netloc validation (see README). */
  function UrlSplit(u: string): SplitUrl
  {
    var (scheme, rest) := SplitScheme(Clean(u));
    SplitRest(scheme, rest)
  }

  /** The cleaned form `urlsplit` works on. */
  function Clean(u: string): string
  {
    RemoveUnsafe(LStrip(u))
  }

  /** What follows the scheme: "//" and a network location, then the path, the query
      after the first '?' and the fragment after the first '#'. */
  function SplitRest(scheme: string, rest: string): SplitUrl
  {
    var (netloc, rest2) :=
      if StartsWith(rest, "//") then
        var d := NetlocEnd(rest, 2);
        (rest[2..d], rest[d..])
      else ("", rest);
    var (rest3, fragment) := SplitOnce(rest2, '#');
    var (path, query) := SplitOnce(rest3, '?');
    SplitUrl(scheme, netloc, path, query, fragment)
  }

  /** `\C:...` loses its leading backslash. */
  function DriveFix(p: string): string
  {
    if |p| >= 3 && p[0] == '\\' && p[2] == ':' then p[1..] else p
  }

  /** The Windows path of a file URL's network location and path: a non-empty host
      is put in front as a UNC server, then the text is percent-decoded, slashes
      become backslashes and a backslash before a drive letter is dropped. */
  function WinPath(netloc: string, path: string): string
  {
    var p := if netloc != [] then "\\\\" + netloc + path else path;
    DriveFix(ReplaceChar(Unquote(p), '/', '\\'))
  }

  /** `file_url_to_path_win(u)`. */
  function FileUrlToPathWin(u: string): Option<string>
  {
    if u == [] then None
    else
      var pu := UrlSplit(u);
      if LowerAscii(pu.scheme) != "file" then None
      else Some(WinPath(pu.netloc, pu.path))
  }

  /** The scheme test: the cleaned URL starts with "file:", compared
      case-insensitively. */
  lemma SchemeIsFile(u: string)
    ensures LowerAscii(UrlSplit(u).scheme) == "file" <==> StartsWith(LowerAscii(Clean(u)), "file:")
  {
    var url := Clean(u);
    assert UrlSplit(u).scheme == SplitScheme(url).0;
    if LowerAscii(SplitScheme(url).0) == "file" {
      SchemeFileStarts(url);
    }
    if StartsWith(LowerAscii(url), "file:") {
      StartsSchemeFile(url);
    }
  }

  lemma SchemeFileStarts(url: string)
    requires LowerAscii(SplitScheme(url).0) == "file"
    ensures StartsWith(LowerAscii(url), "file:")
  {
    var i := Find(url, ':');
    assert i == 4;
    assert LowerAscii(url)[..5] == LowerAscii(url[..4]) + [':'];
  }

  lemma StartsSchemeFile(url: string)
    requires StartsWith(LowerAscii(url), "file:")
    ensures LowerAscii(SplitScheme(url).0) == "file"
  {
    var i := Find(url, ':');
    forall j | 0 <= j < 5
      ensures LowerChar(url[j]) == "file:"[j]
    {
      assert LowerAscii(url)[j] == "file:"[j];
    }
    assert url[4] == ':';
    assert forall j | 0 <= j < 4 :: IsAsciiLetter(url[j]) && url[j] != ':';
    assert i == 4;
    assert LowerAscii(url[..4]) == "file";
  }

  /** `None` exactly for the empty string and for URLs whose scheme is not "file". */
  lemma FileUrlNone(u: string)
    ensures FileUrlToPathWin(u) == None <==> u == [] || !StartsWith(LowerAscii(Clean(u)), "file:")
  {
    SchemeIsFile(u);
  }

  /** The result never contains '/'. */
  lemma FileUrlNoSlash(u: string)
    ensures FileUrlToPathWin(u).Some? ==> '/' !in FileUrlToPathWin(u).value
  {
    if FileUrlToPathWin(u).Some? {
      var pu := UrlSplit(u);
      WinPathNoSlash(pu.netloc, pu.path);
    }
  }

  lemma WinPathNoSlash(netloc: string, path: string)
    ensures '/' !in WinPath(netloc, path)
  {
    var p := if netloc != [] then "\\\\" + netloc + path else path;
    var q := ReplaceChar(Unquote(p), '/', '\\');
    assert '/' !in q;
    if |q| >= 3 && q[0] == '\\' && q[2] == ':' {
      assert q == [q[0]] + q[1..];
    }
  }

  /** With a host, the result is a UNC path: it starts with a backslash, and with two
      unless the decoded host itself starts with ':' (the drive-letter rule then
      removes one of them). */
  lemma FileUrlUncPrefix(netloc: string, path: string)
    requires netloc != []
    ensures var r := WinPath(netloc, path);
            |r| >= 2 && r[0] == '\\'
            && (r[1] == '\\' || (Unquote(netloc + path) != [] && Unquote(netloc + path)[0] == ':'))
    ensures PlainHost(netloc) ==> StartsWith(WinPath(netloc, path), "\\\\" + netloc)
  {
    if PlainHost(netloc) {
      FileUrlUncHost(netloc, path);
    }
    var lead := "\\\\";
    assert lead + netloc + path == lead + (netloc + path);
    UnquotePlainPrefix(lead, netloc + path);
    var d := Unquote(netloc + path);
    var q := ReplaceChar(lead + d, '/', '\\');
    assert q[0] == '\\' && q[1] == '\\';
    if |q| >= 3 && q[2] == ':' {
      assert (lead + d)[2] == ':';
      assert d[0] == ':';
    }
  }

  /** With a plain host the result starts with two backslashes and the host,
      whatever the path; `PlainHost` rules out the host that starts with ':'. */
  lemma FileUrlUncHost(netloc: string, path: string)
    requires PlainHost(netloc)
    ensures StartsWith(WinPath(netloc, path), "\\\\" + netloc)
  {
    var lead := "\\\\" + netloc;
    PlainUncLead(netloc);
    assert lead + path == "\\\\" + netloc + path;
    UnquotePlainPrefix(lead, path);
    var q := ReplaceChar(lead + Unquote(path), '/', '\\');
    forall i | 0 <= i < |lead| ensures q[i] == lead[i] {
      assert (lead + Unquote(path))[i] == lead[i];
    }
    assert q[..|lead|] == lead;
    assert q[2] == netloc[0];
  }

  lemma PlainUncLead(host: string)
    requires PlainHost(host)
    ensures var lead := "\\\\" + host;
            '%' !in lead && '/' !in lead && forall i :: 0 <= i < |lead| ==> IsAscii(lead[i])
  {
    var lead := "\\\\" + host;
    forall i | 0 <= i < |lead| ensures lead[i] != '%' && lead[i] != '/' && IsAscii(lead[i]) {
      if 2 <= i {
        assert lead[i] == host[i - 2];
        assert host[i - 2] in host;
      }
    }
  }

  predicate NoUnsafe(s: string)
  {
    '\t' !in s && '\r' !in s && '\n' !in s
  }

  predicate NoDelim(s: string)
  {
    '/' !in s && '?' !in s && '#' !in s
  }

  /** The conversion of a URL whose scheme is "file". */
  lemma FileUrlOfSplit(u: string)
    requires u != [] && UrlSplit(u).scheme == "file"
    ensures FileUrlToPathWin(u) == Some(WinPath(UrlSplit(u).netloc, UrlSplit(u).path))
  {
    assert LowerAscii("file") == "file" by {
      forall j | 0 <= j < 4 ensures LowerAscii("file")[j] == "file"[j] {
        assert LowerAscii("file")[j] == LowerChar("file"[j]);
      }
    }
  }

  /** A "file:" URL without tabs and line breaks is split after its scheme. */
  lemma FileSchemeSplit(rest: string)
    requires NoUnsafe(rest)
    ensures UrlSplit("file:" + rest) == SplitRest("file", rest)
  {
    var u := "file:" + rest;
    assert u[0] == 'f' && u[1] == 'i' && u[2] == 'l' && u[3] == 'e' && u[4] == ':';
    assert LeadingBlanks(u, 0) == 0;
    assert LStrip(u) == u;
    assert Clean(u) == u;
    assert Find(u, ':') == 4;
    assert u[..4] == "file" && u[5..] == rest;
    assert forall j | 0 <= j < 4 :: IsSchemeChar(u[j]);
    assert LowerAscii(u[..4]) == "file" by {
      forall j | 0 <= j < 4 ensures LowerAscii(u[..4])[j] == "file"[j] {
        assert LowerAscii(u[..4])[j] == LowerChar("file"[j]);
      }
    }
    assert SplitScheme(u) == ("file", rest);
  }

  /** "//", a host free of delimiters, then a path free of '?' and '#'. */
  lemma SplitHostPath(host: string, after: string)
    requires NoDelim(host)
    requires after == [] || after[0] == '/'
    requires '#' !in after && '?' !in after
    ensures SplitRest("file", "//" + host + after) == SplitUrl("file", host, after, "", "")
  {
    var rest := "//" + host + after;
    var n := |host|;
    HostNetlocEnd(host, after);
    assert rest[2..2 + n] == host && rest[2 + n..] == after;
  }

  lemma HostNetlocEnd(host: string, after: string)
    requires NoDelim(host)
    requires after == [] || after[0] == '/'
    ensures NetlocEnd("//" + host + after, 2) == 2 + |host|
  {
    var rest := "//" + host + after;
    var n := |host|;
    forall j | 2 <= j < 2 + n ensures !IsNetlocEnd(rest[j]) {
      assert rest[j] == host[j - 2];
      assert host[j - 2] in host;
    }
    assert 2 + n < |rest| ==> rest[2 + n] == '/';
  }

  /** No unsafe characters and no delimiters in percent-encoded text. */
  lemma EncodedIsPlain(path: string)
    ensures NoUnsafe(PercentEncode(path)) && NoDelim(PercentEncode(path))
  {
    var e := PercentEncode(path);
    PercentEncodeAlphabet(path);
    forall c | c in e ensures Unreserved(c) || c == '%' {
      var i :| 0 <= i < |e| && e[i] == c;
    }
  }

  /** The URL of a drive path: "file:///" and the percent-encoded path. */
  lemma DriveRoundTrip(path: string)
    requires |path| >= 2 && path[1] == ':'
    requires '/' !in path
    ensures FileUrlToPathWin("file:///" + PercentEncode(path)) == Some(path)
  {
    var e := PercentEncode(path);
    EncodedIsPlain(path);
    DriveSplit(e);
    FileUrlOfSplit("file:///" + e);
    DriveWinPath(path);
  }

  lemma DriveSplit(e: string)
    requires NoUnsafe(e) && NoDelim(e)
    ensures UrlSplit("file:///" + e) == SplitUrl("file", [], "/" + e, "", "")
  {
    var after := "/" + e;
    var rest := "//" + [] + after;
    assert "file:///" + e == "file:" + rest;
    FileSchemeSplit(rest);
    SplitHostPath([], after);
  }

  lemma DriveWinPath(path: string)
    requires |path| >= 2 && path[1] == ':'
    requires '/' !in path
    ensures WinPath([], "/" + PercentEncode(path)) == path
  {
    var e := PercentEncode(path);
    UnquotePlainPrefix("/", e);
    UnquotePercentEncodeRoundTrip(path);
    assert Unquote("/" + e) == "/" + path;
    LeadingSlash(path);
    var q := "\\" + path;
    assert q[1..] == path && q[2] == ':';
  }

  /** Only the leading slash becomes a backslash when the rest has none. */
  lemma LeadingSlash(path: string)
    requires '/' !in path
    ensures ReplaceChar("/" + path, '/', '\\') == "\\" + path
  {
    var q := ReplaceChar("/" + path, '/', '\\');
    forall i | 1 <= i < |q| ensures q[i] == path[i - 1] {
      assert ("/" + path)[i] == path[i - 1];
      assert path[i - 1] in path;
    }
  }

  /** A host name that `urlsplit` keeps whole and `unquote` leaves alone. */
  predicate PlainHost(host: string)
  {
    && host != [] && host[0] != ':'
    && '%' !in host && NoDelim(host) && NoUnsafe(host)
    && forall i :: 0 <= i < |host| ==> IsAscii(host[i])
  }

  /** The URL of a UNC path: the host becomes the server part after two backslashes. */
  lemma UncRoundTrip(host: string, path: string)
    requires PlainHost(host)
    requires '/' !in path
    ensures FileUrlToPathWin("file://" + host + "/" + PercentEncode(path)) == Some("\\\\" + host + "\\" + path)
  {
    var e := PercentEncode(path);
    EncodedIsPlain(path);
    UncSplit(host, e);
    FileUrlOfSplit("file://" + host + "/" + e);
    UncWinPath(host, path);
  }

  lemma UncSplit(host: string, e: string)
    requires PlainHost(host) && NoUnsafe(e) && NoDelim(e)
    ensures UrlSplit("file://" + host + "/" + e) == SplitUrl("file", host, "/" + e, "", "")
  {
    var after := "/" + e;
    var rest := "//" + host + after;
    assert "file://" + host + "/" + e == "file:" + rest;
    FileSchemeSplit(rest);
    SplitHostPath(host, after);
  }

  lemma UncWinPath(host: string, path: string)
    requires PlainHost(host)
    requires '/' !in path
    ensures WinPath(host, "/" + PercentEncode(path)) == "\\\\" + host + "\\" + path
  {
    var e := PercentEncode(path);
    var lead := "\\\\" + host + "/";
    assert "\\\\" + host + ("/" + e) == lead + e;
    PlainLead(host);
    UnquotePlainPrefix(lead, e);
    UnquotePercentEncodeRoundTrip(path);
    ReplaceUnc(host, path);
  }

  /** Slashes become backslashes; the host has none and the path has none. */
  lemma ReplaceUnc(host: string, path: string)
    requires PlainHost(host)
    requires '/' !in path
    ensures var q := ReplaceChar("\\\\" + host + "/" + path, '/', '\\');
            q == "\\\\" + host + "\\" + path && q[2] == host[0]
  {
    var n := |host|;
    var d := "\\\\" + host + "/" + path;
    var q := ReplaceChar(d, '/', '\\');
    var want := "\\\\" + host + "\\" + path;
    assert |q| == |want|;
    forall i | 0 <= i < |q| ensures q[i] == want[i] {
      if i < 2 {
      } else if i < 2 + n {
        assert d[i] == host[i - 2] && want[i] == host[i - 2];
        assert host[i - 2] in host;
      } else if i == 2 + n {
      } else {
        assert d[i] == path[i - 3 - n] && want[i] == path[i - 3 - n];
        assert path[i - 3 - n] in path;
      }
    }
  }

  lemma PlainLead(host: string)
    requires PlainHost(host)
    ensures var lead := "\\\\" + host + "/";
            '%' !in lead && forall i :: 0 <= i < |lead| ==> IsAscii(lead[i])
  {
    var lead := "\\\\" + host + "/";
    forall i | 0 <= i < |lead| ensures lead[i] != '%' && IsAscii(lead[i]) {
      if 2 <= i < 2 + |host| { assert lead[i] == host[i - 2]; }
    }
  }

  /** A drive URL written with plain characters, as Explorer reports most folders:
      the slashes become backslashes and nothing else changes. */
  lemma PlainDriveUrl(path: string)
    requires |path| >= 2 && path[1] == ':'
    requires NoUnsafe(path) && '?' !in path && '#' !in path && '%' !in path
    ensures FileUrlToPathWin("file:///" + path) == Some(ReplaceChar(path, '/', '\\'))
  {
    PlainDriveSplit(path);
    FileUrlOfSplit("file:///" + path);
    PlainDriveWinPath(path);
  }

  lemma PlainDriveSplit(path: string)
    requires NoUnsafe(path) && '?' !in path && '#' !in path
    ensures UrlSplit("file:///" + path) == SplitUrl("file", [], "/" + path, "", "")
  {
    var after := "/" + path;
    var rest := "//" + [] + after;
    assert "file:///" + path == "file:" + rest;
    FileSchemeSplit(rest);
    SplitHostPath([], after);
  }

  lemma PlainDriveWinPath(path: string)
    requires |path| >= 2 && path[1] == ':' && '%' !in path
    ensures WinPath([], "/" + path) == ReplaceChar(path, '/', '\\')
  {
    var after := "/" + path;
    assert Unquote(after) == after;
    var q := ReplaceChar(after, '/', '\\');
    assert q == "\\" + ReplaceChar(path, '/', '\\');
  }
}
