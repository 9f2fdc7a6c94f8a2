/**
 `os.path.splitext` on POSIX paths: the extension is the suffix from the last
 `.` of the final `/`-component, provided that dot is preceded in the
 component by some character other than `.` (leading dots of a file name do
 not start an extension, so ".md" has none).
 */
module Paths {
  import opened Strings

  /** Some character of `p[lo..hi]` is not a dot. */
  predicate HasNonDot(p: string, lo: nat, hi: nat)
    requires lo <= hi <= |p|
  {
    exists i :: lo <= i < hi && p[i] != '.'
  }

  /** `os.path.splitext(p)`: a (root, extension) pair with root + extension == p. */
  function SplitExt(p: string): (r: (string, string))
    ensures r.0 + r.1 == p
    ensures r.1 == "" || (r.1[0] == '.' && forall i :: 1 <= i < |r.1| ==> r.1[i] != '.' && r.1[i] != '/')
  {
    var sepIndex := LastIndexOf(p, '/');
    var dotIndex := LastIndexOf(p, '.');
    if dotIndex > sepIndex && HasNonDot(p, sepIndex + 1, dotIndex) then
      assert p[..dotIndex] + p[dotIndex..] == p;
      (p[..dotIndex], p[dotIndex..])
    else
      assert p + "" == p;
      (p, "")
  }

  /** The extension of a key, `os.path.splitext(key)[1]`. */
  function Extension(p: string): string {
    SplitExt(p).1
  }

  /** A key ending in `/` (a folder marker) has no extension. */
  lemma FolderMarkerHasNoExtension(p: string)
    requires |p| > 0 && p[|p| - 1] == '/'
    ensures Extension(p) == ""
  {
  }

  /**
   A file name `stem + ext`, where `ext` is a dot followed by neither dots
   nor slashes and the stem ends in a character that is neither, has
   extension `ext`, whatever directories the stem holds.
   */
  lemma ExtensionOfName(stem: string, ext: string)
    requires |stem| > 0 && stem[|stem| - 1] != '/' && stem[|stem| - 1] != '.'
    requires |ext| > 0 && ext[0] == '.'
    requires forall i :: 1 <= i < |ext| ==> ext[i] != '.' && ext[i] != '/'
    ensures SplitExt(stem + ext) == (stem, ext)
  {
    var p := stem + ext;
    var d := |stem|;
    LastIndexOfLast(p, '.', d);
    var s := LastIndexOf(p, '/');
    assert s < d - 1 by {
      assert p[d - 1] != '/';
      assert p[d] != '/';
    }
    assert p[d - 1] != '.';
    assert p[..d] == stem;
    assert p[d..] == ext;
  }

  /** A name whose only dot is its first character, such as ".md", has no extension. */
  lemma HiddenFileHasNoExtension(dir: string, name: string)
    requires |name| > 0 && name[0] == '.'
    requires forall i :: 1 <= i < |name| ==> name[i] != '.' && name[i] != '/'
    ensures Extension(dir + "/" + name) == "" && Extension(name) == ""
  {
    var p := dir + "/" + name;
    LastIndexOfLast(p, '.', |dir| + 1);
    LastIndexOfLast(p, '/', |dir|);
    LastIndexOfLast(name, '.', 0);
  }

  /** The last dot of a name starts its extension; a directory's dot does not. */
  lemma ExtensionExamples()
    ensures Extension(".md") == ""
    ensures Extension("notes.tar.gz") == ".gz"
    ensures Extension("docs/Report.PDF") == ".PDF"
  {
    HiddenFileHasNoExtension("", ".md");
    ExtensionOfName("notes.tar", ".gz");
    assert "notes.tar" + ".gz" == "notes.tar.gz";
    ExtensionOfName("docs/Report", ".PDF");
    assert "docs/Report" + ".PDF" == "docs/Report.PDF";
  }

  /**
   A non-empty extension starts at the last dot of the file name, and the file
   name has a non-dot character before it.
   */
  lemma ExtensionShape(p: string)
    requires Extension(p) != ""
    ensures var d := |p| - |Extension(p)|;
            var s := LastIndexOf(p, '/');
            s < d && p[d] == '.' && HasNonDot(p, s + 1, d)
  {
  }
}
