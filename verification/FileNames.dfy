/**
  Names inside archives: the last path component, its stem and extension, pages, nested archives, and the
  name a second file of the same name is written under.
 */
module FileNames {
  import opened Text

  /** Where the last `c` stands. */
  function LastIndex(s: string, c: char): (k: Option<nat>)
    ensures k.Some? ==> k.value < |s| && s[k.value] == c && c !in s[k.value + 1..]
    ensures k.None? <==> c !in s
  {
    if s == "" then None
    else if s[|s| - 1] == c then Some(|s| - 1)
    else
      var k := LastIndex(s[..|s| - 1], c);
      assert s == s[..|s| - 1] + [s[|s| - 1]];
      assert k.Some? ==> s[k.value + 1..] == s[..|s| - 1][k.value + 1..] + [s[|s| - 1]];
      k
  }

  function AfterLast(s: string, c: char): string {
    var k := LastIndex(s, c);
    if k.Some? then s[k.value + 1..] else s
  }

  /** The last path component, when it names something. */
  function FileName(path: string): Option<string> {
    var name := AfterLast(path, '/');
    if name == "" || name == "." || name == ".." then None else Some(name)
  }

  function BaseName(path: string): string {
    FileName(path).GetOr(path)
  }

  /** The dot that separates stem and extension: not a leading one. */
  function Dot(name: string): Option<nat> {
    var k := LastIndex(name, '.');
    if k == Some(0) then None else k
  }

  function Extension(path: string): Option<string> {
    var name := FileName(path);
    if name.Some? && Dot(name.value).Some? then Some(name.value[Dot(name.value).value + 1..]) else None
  }

  function Stem(path: string): string {
    var name := FileName(path);
    if name.None? then "" else if Dot(name.value).Some? then name.value[..Dot(name.value).value] else name.value
  }

  const IMAGE_EXTENSIONS: set<string> :=
    {"png", "jpg", "gif", "bmp", "jpeg", "jfif", "webp", "avif", "heif", "heic", "jxl"}

  const ARCHIVE_EXTENSIONS: set<string> :=
    {"zip", "cbz", "epub", "rar", "cbr", "7z", "cb7", "lzh", "lha", "tar", "gz", "bz2", "xz"}

  predicate IsImageName(name: string) {
    Lower(AfterLast(name, '.')) in IMAGE_EXTENSIONS
  }

  predicate IsArchiveName(path: string) {
    Extension(path).Some? && Lower(Extension(path).value) in ARCHIVE_EXTENSIONS
  }

  type Checksum = string -> string

  /** Eight hexadecimal digits. */
  ghost predicate IsChecksum(crc: Checksum) {
    forall s :: |crc(s)| == 8 && '.' !in crc(s) && '/' !in crc(s)
  }

  /** `stem_crc.ext`; `fallback` stands in for a missing extension. */
  function Renamed(name: string, fallback: string, crc: Checksum): string {
    Stem(name) + "_" + crc(name) + "." + Extension(name).GetOr(fallback)
  }

  lemma {:induction false} LastIndexIs(s: string, c: char, k: nat)
    requires k < |s| && s[k] == c && c !in s[k + 1..]
    ensures LastIndex(s, c) == Some(k)
  {
    var j := LastIndex(s, c);
    assert c in s;
    assert forall i :: k < i < |s| ==> s[i] == s[k + 1..][i - k - 1];
    assert forall i :: j.value < i < |s| ==> s[i] == s[j.value + 1..][i - j.value - 1];
  }

  /** What follows the last slash is the last component. */
  lemma {:induction false} BaseNameIs(dir: string, name: string)
    requires '/' !in name && name != "" && name != "." && name != ".."
    ensures BaseName(name) == name && BaseName(dir + "/" + name) == name
  {
    var path := dir + "/" + name;
    assert path[|dir|] == '/' && path[|dir| + 1..] == name;
    LastIndexIs(path, '/', |dir|);
  }

  lemma {:induction false} DotParts(stem: string, ext: string)
    requires '/' !in stem && '/' !in ext && '.' !in ext && stem != "" && stem + "." + ext != ".."
    ensures var name := stem + "." + ext;
            && FileName(name) == Some(name) && Dot(name) == Some(|stem|)
            && name[..|stem|] == stem && name[|stem| + 1..] == ext && AfterLast(name, '.') == ext
  {
    var name := stem + "." + ext;
    assert |name| >= 2 && name[|stem|] == '.' && name[|stem| + 1..] == ext && name[..|stem|] == stem;
    LastIndexIs(name, '.', |stem|);
    assert '/' !in name;
  }

  /** The second of a name keeps stem and extension, with its checksum between the two. */
  lemma {:induction false} RenamedForm(stem: string, ext: string, fallback: string, crc: Checksum)
    requires '/' !in stem && '/' !in ext && '.' !in ext && stem != "" && stem + "." + ext != ".."
    ensures var name := stem + "." + ext;
            Extension(name) == Some(ext) && Renamed(name, fallback, crc) == stem + "_" + crc(name) + "." + ext
  {
    DotParts(stem, ext);
  }

  /** A name without extension, or with a leading dot alone, gets the fallback. */
  lemma {:induction false} RenamedWithout(name: string, fallback: string, crc: Checksum)
    requires '/' !in name && name != "" && name != "." && '.' !in name[1..]
    ensures Extension(name).None? && Renamed(name, fallback, crc) == name + "_" + crc(name) + "." + fallback
  {
    assert ".."[1..] == "." && name != "..";
    assert forall i :: 0 < i < |name| ==> name[i] == name[1..][i - 1];
    if name[0] == '.' {
      LastIndexIs(name, '.', 0);
    } else {
      assert '.' !in name;
    }
  }

  /** Pages and archives by extension, in either case. */
  lemma {:induction false} KindsByExtension(stem: string, ext: string)
    requires '/' !in stem && '/' !in ext && '.' !in ext && stem != "" && stem + "." + ext != ".."
    ensures IsImageName(stem + "." + ext)
        <==> Lower(ext) in {"png", "jpg", "gif", "bmp", "jpeg", "jfif", "webp", "avif", "heif", "heic", "jxl"}
    ensures IsArchiveName(stem + "." + ext)
        <==> Lower(ext) in {"zip", "cbz", "epub", "rar", "cbr", "7z", "cb7", "lzh", "lha", "tar", "gz", "bz2", "xz"}
  {
    DotParts(stem, ext);
  }

  lemma {:induction false} ExtensionsAreWords()
    ensures IMAGE_EXTENSIONS !! ARCHIVE_EXTENSIONS
    ensures forall e :: e in IMAGE_EXTENSIONS ==> '/' !in e
  {
  }

  lemma {:induction false} LowerKeepsSlash(s: string)
    ensures '/' in s <==> '/' in Lower(s)
  {
    assert forall i :: 0 <= i < |s| ==> (s[i] == '/' <==> Lower(s)[i] == '/');
  }

  lemma {:induction false} NoSlashBehindDot(path: string)
    requires IsImageName(path)
    ensures '/' !in AfterLast(path, '.')
  {
    ExtensionsAreWords();
    LowerKeepsSlash(AfterLast(path, '.'));
  }

  /** Everything after a page's last dot lies in its last component. */
  lemma {:induction false} DotAfterSlash(path: string)
    requires IsImageName(path)
    ensures AfterLast(AfterLast(path, '/'), '.') == AfterLast(path, '.')
    ensures LastIndex(path, '.').Some? <==> LastIndex(AfterLast(path, '/'), '.').Some?
  {
    NoSlashBehindDot(path);
    LastDotInside(path);
  }

  lemma {:induction false} LastDotInside(path: string)
    requires '/' !in AfterLast(path, '.')
    ensures AfterLast(AfterLast(path, '/'), '.') == AfterLast(path, '.')
    ensures LastIndex(path, '.').Some? <==> LastIndex(AfterLast(path, '/'), '.').Some?
  {
    var slash, dot := LastIndex(path, '/'), LastIndex(path, '.');
    if slash.Some? {
      var name := path[slash.value + 1..];
      if dot.Some? {
        SlashFirst(path, slash.value, dot.value);
        var k := dot.value - slash.value - 1;
        assert name[k] == '.' && name[k + 1..] == path[dot.value + 1..];
        LastIndexIs(name, '.', k);
      }
    }
  }

  lemma SlashFirst(path: string, slash: nat, dot: nat)
    requires slash < |path| && dot < |path| && path[slash] == '/' && path[dot] == '.' && '/' !in path[dot + 1..]
    ensures slash < dot
  {
    assert forall i :: dot < i < |path| ==> path[i] == path[dot + 1..][i - dot - 1];
  }

  /** A page's extension, when it has one, is what follows its last dot. */
  lemma {:induction false} ExtensionOfPage(path: string)
    requires IsImageName(path) && Extension(path).Some?
    ensures Extension(path).value == AfterLast(path, '.')
  {
    DotAfterSlash(path);
  }

  /** A page is never taken for a nested archive. */
  lemma {:induction false} PageIsNoArchive(path: string)
    requires IsImageName(path)
    ensures !IsArchiveName(path)
  {
    if Extension(path).Some? {
      ExtensionOfPage(path);
      ExtensionsAreWords();
    }
  }

  /** A page's last component is a page as well. */
  lemma {:induction false} BaseOfPage(path: string)
    requires IsImageName(path)
    ensures IsImageName(BaseName(path)) && FileName(path) == Some(BaseName(path))
    ensures '/' !in BaseName(path)
  {
    DotAfterSlash(path);
    var name := AfterLast(path, '/');
    if name == "" || name == "." || name == ".." {
      NotWords(name);
    }
  }

  lemma {:induction false} NotWords(name: string)
    requires name == "" || name == "." || name == ".."
    ensures AfterLast(name, '.') == "" && "" !in IMAGE_EXTENSIONS && Lower("") == ""
  {
    if name != "" {
      LastIndexIs(name, '.', |name| - 1);
    }
  }

  /** The new name is longer, so it is never the name that was taken. */
  lemma {:induction false} RenamedIsLonger(name: string, fallback: string, crc: Checksum)
    requires IsChecksum(crc) && FileName(name) == Some(name)
    ensures |Renamed(name, fallback, crc)| > |name|
  {
  }

  /** `.jpg` in any directory is a page whose name has no extension. */
  lemma {:induction false} BareName(dir: string)
    requires '/' !in dir
    ensures IsImageName(dir + "/.jpg") && BaseName(dir + "/.jpg") == ".jpg" && Extension(dir + "/.jpg").None?
  {
    BareNameParts(dir);
    JpgIsImage();
  }

  lemma {:induction false} BareNameParts(dir: string)
    requires '/' !in dir
    ensures AfterLast(dir + "/.jpg", '/') == ".jpg" && AfterLast(dir + "/.jpg", '.') == "jpg" && Dot(".jpg").None?
  {
    var path := dir + "/.jpg";
    assert path[|dir|] == '/' && path[|dir| + 1..] == ".jpg";
    assert path[|dir| + 1] == '.' && path[|dir| + 2..] == "jpg";
    LastIndexIs(path, '/', |dir|);
    LastIndexIs(path, '.', |dir| + 1);
    assert ".jpg"[1..] == "jpg";
    LastIndexIs(".jpg", '.', 0);
  }

  lemma {:induction false} JpgIsImage()
    ensures Lower("jpg") in IMAGE_EXTENSIONS
  {
    assert Lower("jpg") == "jpg";
  }

  /** The new name ends in the old extension, or in the fallback. */
  lemma {:induction false} RenamedEndsIn(name: string, fallback: string, crc: Checksum)
    requires IsChecksum(crc) && '.' !in fallback
    ensures AfterLast(Renamed(name, fallback, crc), '.') == Extension(name).GetOr(fallback)
  {
    var front := Stem(name) + "_" + crc(name);
    var ext := Extension(name).GetOr(fallback);
    var out := Renamed(name, fallback, crc);
    assert out[|front|] == '.' && out[|front| + 1..] == ext;
    LastIndexIs(out, '.', |front|);
  }

  lemma {:induction false} BinIsNoPage()
    ensures Lower("bin") !in IMAGE_EXTENSIONS && '.' !in "bin"
  {
    assert Lower("bin") == "bin";
  }

  /** A renamed file is still a page exactly when it was one and its extension was a real one. */
  lemma {:induction false} RenamedPage(name: string, crc: Checksum)
    requires IsChecksum(crc) && FileName(name) == Some(name)
    ensures IsImageName(Renamed(name, "bin", crc)) <==> IsImageName(name) && Extension(name).Some?
  {
    BinIsNoPage();
    RenamedEndsIn(name, "bin", crc);
  }
}
