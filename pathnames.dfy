/** The pure part of recording a visit: the display name and the type of a
    canonical path (database.py, lines 71-81). */
module PathNames {
  import opened Strings

  /** The path flavour of the running platform: pathlib's POSIX or Windows paths. */
  datatype Flavour = Posix | Windows

  /** Path separators: '/' everywhere, and '\' as well on Windows. */
  predicate IsSep(f: Flavour, c: char)
  {
    c == '/' || (f == Windows && c == '\\')
  }

  /** Index of the last separator of `p`, or -1 when there is none. */
  function LastSep(f: Flavour, p: string): (r: int)
    ensures -1 <= r < |p|
    ensures r >= 0 ==> IsSep(f, p[r])
    ensures forall j :: r < j < |p| ==> !IsSep(f, p[j])
  {
    LastSepBelow(f, p, |p|)
  }

  function LastSepBelow(f: Flavour, p: string, k: nat): (r: int)
    requires k <= |p|
    ensures -1 <= r < k
    ensures r >= 0 ==> IsSep(f, p[r])
    ensures forall j :: r < j < k ==> !IsSep(f, p[j])
  {
    if k == 0 then -1
    else if IsSep(f, p[k - 1]) then k - 1
    else LastSepBelow(f, p, k - 1)
  }

  /** pathlib's `name` of an absolute path as `str(resolve())` prints it: the text
      after the last separator. Drive and UNC roots are printed with a trailing
      separator, so their name is empty. */
  function BaseName(f: Flavour, p: string): string
  {
    p[LastSep(f, p) + 1..]
  }

  /** The basename is the longest separator-free tail of the path. */
  lemma BaseNameMeaning(f: Flavour, p: string)
    ensures EndsWith(p, BaseName(f, p))
    ensures forall j :: 0 <= j < |BaseName(f, p)| ==> !IsSep(f, BaseName(f, p)[j])
    ensures |BaseName(f, p)| < |p| ==> IsSep(f, p[|p| - |BaseName(f, p)| - 1])
  {
  }

  /** pathlib's `suffix`: from the last '.' of the name, provided that dot is
      neither the first nor the last character of the name; otherwise empty. */
  function Suffix(name: string): string
  {
    var i := RFind(name, '.');
    if 0 < i < |name| - 1 then name[i..] else ""
  }

  /** `name` ends with the lower-case extension `ext` (ASCII case-insensitively)
      and has at least one character before it. */
  predicate HasExtension(name: string, ext: string)
  {
    |ext| < |name| && LowerAscii(name[|name| - |ext|..]) == ext
  }

  /** An extension in the sense of `Suffix`: a dot, then at least one character,
      none of them a dot. */
  predicate IsExtension(ext: string)
  {
    |ext| >= 2 && ext[0] == '.' && '.' !in ext[1..]
  }

  /** The characterisation of `suffix.lower() == ext` without `rfind`:
      the comparison holds exactly when the name ends with the extension
      (ignoring ASCII case) and does not start with it. */
  lemma SuffixMatchIff(name: string, ext: string)
    requires IsExtension(ext)
    ensures LowerAscii(Suffix(name)) == ext <==> HasExtension(name, ext)
  {
    var i := RFind(name, '.');
    if LowerAscii(Suffix(name)) == ext {
      assert 0 < i < |name| - 1;
      assert name[|name| - |ext|..] == Suffix(name);
    }
    if HasExtension(name, ext) {
      var j := |name| - |ext|;
      var tail := name[j..];
      assert LowerChar(tail[0]) == '.';
      assert name[j] == '.';
      forall k | j < k < |name|
        ensures name[k] != '.'
      {
        assert LowerChar(tail[k - j]) == ext[k - j];
        assert ext[k - j] in ext[1..];
      }
      assert i == j;
    }
  }

  /** The four types of a footprint. */
  datatype PathKind = Folder | Shortcut | WebShortcut | File

  /** The text stored in the `type` column (database.py, lines 75, 77, 79, 81). */
  function Label(k: PathKind): (r: string)
    ensures r != []
  {
    match k
    case Folder => "Folder"
    case Shortcut => "Shortcut (Win)"
    case WebShortcut => "WebShortcut"
    case File => "File"
  }

  /** The classification chain of database.py, lines 74-81, first match wins,
      written with pathlib's `suffix` as the source does. `isDir` is `p.is_dir()`,
      `name` is `p.name`. */
  function SuffixChain(isDir: bool, name: string): PathKind
  {
    if isDir then Folder
    else if LowerAscii(Suffix(name)) == ".lnk" then Shortcut
    else if LowerAscii(Suffix(name)) == ".url" then WebShortcut
    else File
  }

  /** The same chain stated with `HasExtension`; the rest of the model uses this
      form, which `ClassifyIsSuffixChain` proves equal to the source's. */
  function Classify(isDir: bool, name: string): PathKind
  {
    if isDir then Folder
    else if HasExtension(name, ".lnk") then Shortcut
    else if HasExtension(name, ".url") then WebShortcut
    else File
  }

  /** Classification is first-match on (directory, `.lnk`, `.url`) and agrees with
      the source's suffix comparisons on every name. */
  lemma ClassifyIsSuffixChain(isDir: bool, name: string)
    ensures Classify(isDir, name) == SuffixChain(isDir, name)
    ensures Classify(isDir, name) == Folder <==> isDir
    ensures Classify(isDir, name) == Shortcut <==> !isDir && LowerAscii(Suffix(name)) == ".lnk"
    ensures Classify(isDir, name) == WebShortcut <==> !isDir && LowerAscii(Suffix(name)) == ".url"
    ensures Classify(isDir, name) == File <==>
              !isDir && LowerAscii(Suffix(name)) != ".lnk" && LowerAscii(Suffix(name)) != ".url"
  {
    SuffixMatchIff(name, ".lnk");
    SuffixMatchIff(name, ".url");
  }

  /** The stored name: the basename, or the whole path when the basename is empty. */
  function DisplayName(f: Flavour, full: string): string
  {
    var n := BaseName(f, full);
    if n == [] then full else n
  }

  /** The stored name is never empty for a non-empty path; it is either the whole
      path (a root) or a non-empty, separator-free tail of it. */
  lemma DisplayNameMeaning(f: Flavour, full: string)
    ensures full != [] ==> DisplayName(f, full) != []
    ensures BaseName(f, full) == [] ==> DisplayName(f, full) == full
    ensures BaseName(f, full) != [] ==>
              && DisplayName(f, full) == BaseName(f, full)
              && EndsWith(full, DisplayName(f, full))
              && forall j :: 0 <= j < |DisplayName(f, full)| ==> !IsSep(f, DisplayName(f, full)[j])
  {
    BaseNameMeaning(f, full);
  }
}
