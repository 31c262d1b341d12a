/**
 * The naming policy of `save`: which extension an entry's image file keeps,
 * and the file name `{kind}_{id}.{ext}` it is written under.
 *
 * Paths are `/`-separated strings; the final component and its extension
 * follow Rust's `Path::file_name` and `Path::extension`.
 */
module Naming {
  import opened Wrappers

  // ---------------------------------------------------------------------------
  // Searching a string
  // ---------------------------------------------------------------------------

  /** Index of the last `c` in `s`, or -1 when `s` has none. */
  function LastIndexOf(s: string, c: char): (r: int)
    ensures -1 <= r < |s|
    ensures r >= 0 ==> s[r] == c
    ensures forall i :: r < i < |s| ==> s[i] != c
  {
    if s == [] then -1
    else if s[|s| - 1] == c then |s| - 1
    else LastIndexOf(s[..|s| - 1], c)
  }

  /** Index of the first `c` in `s`, or |s| when `s` has none. */
  function FirstIndexOf(s: string, c: char): (r: nat)
    ensures r <= |s|
    ensures r < |s| ==> s[r] == c
    ensures forall i :: 0 <= i < r ==> s[i] != c
  {
    if s == [] then 0
    else if s[0] == c then 0
    else 1 + FirstIndexOf(s[1..], c)
  }

  // ---------------------------------------------------------------------------
  // Path::file_name and Path::extension
  // ---------------------------------------------------------------------------

  /**
   * The final component of `path`, as `Path::file_name` gives it: empty
   * components (repeated or trailing `/`) and `.` components are skipped;
   * a final `..`, or no component at all, gives None.
   */
  function FileName(path: string): (r: Option<string>)
    ensures r.Some? ==> '/' !in r.value && r.value != "" && r.value != "." && r.value != ".."
    decreases |path|
  {
    var slash := LastIndexOf(path, '/');
    var last := path[slash + 1..];
    if last == "" || last == "." then
      if slash < 0 then None else FileName(path[..slash])
    else if last == ".." then None
    else Some(last)
  }

  /** The text after the last `/`, when it is an ordinary name, is the file name. */
  lemma FileNameOfLastComponent(dir: string, n: string)
    requires '/' !in n && n != "" && n != "." && n != ".."
    ensures FileName(dir + "/" + n) == Some(n)
    ensures FileName(n) == Some(n)
  {
    var p := dir + "/" + n;
    LastIndexAt(p, '/', |dir|);
    assert p[|dir| + 1..] == n;
    LastIndexAt(n, '/', -1);
    assert n[0..] == n;
  }

  /** A trailing `/` is skipped. */
  lemma FileNameSkipsTrailingSlash(p: string)
    ensures FileName(p + "/") == FileName(p)
  {
    var q := p + "/";
    LastIndexAt(q, '/', |p|);
    assert q[..|p|] == p;
  }

  /** A trailing `.` component is skipped. */
  lemma FileNameSkipsTrailingDot(p: string)
    ensures FileName(p + "/.") == FileName(p)
  {
    var q := p + "/.";
    LastIndexAt(q, '/', |p|);
    assert q[|p| + 1..] == ".";
    assert q[..|p|] == p;
  }

  /** A trailing `..` component leaves no file name. */
  lemma FileNameOfTrailingDotDot(p: string)
    ensures FileName(p + "/..") == None
  {
    var q := p + "/..";
    LastIndexAt(q, '/', |p|);
    assert q[|p| + 1..] == "..";
  }

  /**
   * The extension of a file name, as `Path::extension` splits it: the text
   * after the last `.`, none when there is no `.`, when the only `.` leads,
   * or when the name is `..`.
   */
  function Extension(name: string): (r: Option<string>)
    ensures r.Some? ==> forall c :: c in r.value ==> c in name && c != '.'
  {
    if name == ".." then None
    else
      var dot := LastIndexOf(name, '.');
      if dot <= 0 then None else Some(name[dot + 1..])
  }

  /** `PathBuf::from(path).extension()`. */
  function PathExtension(path: string): (r: Option<string>)
    ensures r.Some? ==> '/' !in r.value && '.' !in r.value
  {
    match FileName(path)
    case None => None
    case Some(name) => Extension(name)
  }

  /** An extension is exactly the text after the last dot of a name with a non-empty stem. */
  lemma ExtensionIsTextAfterLastDot(name: string, ext: string)
    requires name != ".."
    ensures Extension(name) == Some(ext) <==>
              exists stem :: stem != "" && '.' !in ext && name == stem + "." + ext
  {
    if Extension(name) == Some(ext) {
      var dot := LastIndexOf(name, '.');
      var stem := name[..dot];
      assert name == stem + "." + ext;
    }
    if exists stem :: stem != "" && '.' !in ext && name == stem + "." + ext {
      var stem :| stem != "" && '.' !in ext && name == stem + "." + ext;
      var dot := LastIndexOf(name, '.');
      assert name[|stem|] == '.';
      assert dot == |stem|;
      assert name[dot + 1..] == ext;
    }
  }

  // ---------------------------------------------------------------------------
  // The extension policy
  // ---------------------------------------------------------------------------

  /** Used when the path is empty or names no extension, and in place of `webp`. */
  const DefaultExtension: string := "png"

  /** The one extension the encoder cannot write. */
  const UnwritableExtension: string := "webp"

  /**
   * The extension `save` gives an entry's image file: the extension of its
   * current path, `png` when the path is empty or has none, and `png` in
   * place of a literal (case-sensitive) `webp`.
   */
  function ChooseExtension(path: string): (ext: string)
    ensures ext != UnwritableExtension
    ensures '.' !in ext && '/' !in ext
  {
    var candidate := if path != "" then PathExtension(path) else None;
    match candidate
    case None => DefaultExtension
    case Some(e) => if e == UnwritableExtension then DefaultExtension else e
  }

  /**
   * The cases of the policy, seen from the result: `png` comes from an empty
   * path, a missing extension, `png` itself or `webp`; any other result is
   * the path's own extension, kept verbatim.
   */
  lemma ChooseExtensionCases(path: string, ext: string)
    ensures ChooseExtension(path) == ext <==>
              if ext == DefaultExtension then
                path == "" || PathExtension(path) in {None, Some(DefaultExtension), Some(UnwritableExtension)}
              else
                ext != UnwritableExtension && path != "" && PathExtension(path) == Some(ext)
  {
  }

  /** `k` is the last index of `c` in `s` when `s[k]` is `c` and no later character is. */
  lemma LastIndexAt(s: string, c: char, k: int)
    requires -1 <= k < |s| && (k >= 0 ==> s[k] == c)
    requires forall i :: k < i < |s| ==> s[i] != c
    ensures LastIndexOf(s, c) == k
  {
  }

  /** A `webp` image file is written as `png`. */
  lemma WebpBecomesPng()
    ensures ChooseExtension("layers/body.webp") == "png"
  {
    LastIndexAt("layers/body.webp", '/', 6);
    assert "layers/body.webp"[7..] == "body.webp";
    assert FileName("layers/body.webp") == Some("body.webp");
    LastIndexAt("body.webp", '.', 4);
    assert "body.webp"[5..] == "webp";
    assert PathExtension("layers/body.webp") == Some("webp");
  }

  /** The `webp` test is case-sensitive: `WEBP` is kept. */
  lemma WebpTestIsCaseSensitive()
    ensures ChooseExtension("body.WEBP") == "WEBP"
  {
    LastIndexAt("body.WEBP", '/', -1);
    assert "body.WEBP"[0..] == "body.WEBP";
    assert FileName("body.WEBP") == Some("body.WEBP");
    LastIndexAt("body.WEBP", '.', 4);
    assert "body.WEBP"[5..] == "WEBP";
    assert PathExtension("body.WEBP") == Some("WEBP");
  }

  /** A trailing dot gives the empty extension, which is kept. */
  lemma TrailingDotGivesEmptyExtension()
    ensures ChooseExtension("foo.") == ""
  {
    LastIndexAt("foo.", '/', -1);
    assert "foo."[0..] == "foo.";
    assert FileName("foo.") == Some("foo.");
    LastIndexAt("foo.", '.', 3);
    assert "foo."[4..] == "";
    assert PathExtension("foo.") == Some("");
  }

  /** A name whose only dot leads has no extension. */
  lemma LeadingDotGivesPng()
    ensures ChooseExtension(".bashrc") == "png"
  {
    LastIndexAt(".bashrc", '/', -1);
    assert ".bashrc"[0..] == ".bashrc";
    assert FileName(".bashrc") == Some(".bashrc");
    LastIndexAt(".bashrc", '.', 0);
    assert PathExtension(".bashrc") == None;
  }

  /** Only the text after the last dot counts. */
  lemma LastDotCounts()
    ensures ChooseExtension("archive.tar.gz") == "gz"
  {
    LastIndexAt("archive.tar.gz", '/', -1);
    assert "archive.tar.gz"[0..] == "archive.tar.gz";
    assert FileName("archive.tar.gz") == Some("archive.tar.gz");
    LastIndexAt("archive.tar.gz", '.', 11);
    assert "archive.tar.gz"[12..] == "gz";
    assert PathExtension("archive.tar.gz") == Some("gz");
  }

  /** A dot in a directory name is no extension of the file. */
  lemma DirectoryDotIgnored()
    ensures ChooseExtension("v1.2/body") == "png"
  {
    LastIndexAt("v1.2/body", '/', 4);
    assert "v1.2/body"[5..] == "body";
    assert FileName("v1.2/body") == Some("body");
    LastIndexAt("body", '.', -1);
    assert PathExtension("v1.2/body") == None;
  }

  /** A path ending in `..` names no file, so no extension. */
  lemma DotDotGivesPng()
    ensures ChooseExtension("a.b/..") == "png"
  {
    LastIndexAt("a.b/..", '/', 3);
    assert "a.b/.."[4..] == "..";
    assert FileName("a.b/..") == None;
  }

  /** A trailing `/` is skipped: the extension is the final component's. */
  lemma TrailingSlashSkipped()
    ensures ChooseExtension("dir/body.jpg/") == "jpg"
  {
    LastIndexAt("dir/body.jpg/", '/', 12);
    assert "dir/body.jpg/"[13..] == "";
    assert "dir/body.jpg/"[..12] == "dir/body.jpg";
    LastIndexAt("dir/body.jpg", '/', 3);
    assert "dir/body.jpg"[4..] == "body.jpg";
    assert FileName("dir/body.jpg") == Some("body.jpg");
    assert FileName("dir/body.jpg/") == Some("body.jpg");
    LastIndexAt("body.jpg", '.', 4);
    assert "body.jpg"[5..] == "jpg";
    assert PathExtension("dir/body.jpg/") == Some("jpg");
  }

  // ---------------------------------------------------------------------------
  // Decimal ids
  // ---------------------------------------------------------------------------

  predicate IsDigit(c: char) {
    '0' <= c <= '9'
  }

  predicate AllDigits(s: string) {
    forall i :: 0 <= i < |s| ==> IsDigit(s[i])
  }

  function DigitChar(d: nat): (c: char)
    requires d < 10
    ensures IsDigit(c) && c as int - '0' as int == d
  {
    ('0' as int + d) as char
  }

  /** `n` written in decimal without leading zeros, as `format!("{}", n)`. */
  function DecimalDigits(n: nat): (s: string)
    ensures s != [] && AllDigits(s)
    ensures n > 0 ==> s[0] != '0'
    decreases n
  {
    if n < 10 then [DigitChar(n)] else DecimalDigits(n / 10) + [DigitChar(n % 10)]
  }

  /** The number a string of decimal digits denotes. */
  function ParseDecimal(s: string): nat
    requires AllDigits(s)
  {
    if s == [] then 0 else ParseDecimal(s[..|s| - 1]) * 10 + (s[|s| - 1] as int - '0' as int)
  }

  lemma {:induction false} ParseDecimalInvertsDecimalDigits(n: nat)
    ensures ParseDecimal(DecimalDigits(n)) == n
    decreases n
  {
    if n >= 10 {
      var s := DecimalDigits(n);
      assert s[..|s| - 1] == DecimalDigits(n / 10);
      ParseDecimalInvertsDecimalDigits(n / 10);
    }
  }

  // ---------------------------------------------------------------------------
  // Generated file names
  // ---------------------------------------------------------------------------

  /** The two collections of image-bearing entries of a manifest. */
  datatype Kind = Doll | Fragment

  function KindPrefix(kind: Kind): string {
    match kind
    case Doll => "doll"
    case Fragment => "fragment"
  }

  /** The file name `save` writes an entry's image to and stores as its new path. */
  function GeneratedName(kind: Kind, id: nat, path: string): string {
    KindPrefix(kind) + "_" + DecimalDigits(id) + "." + ChooseExtension(path)
  }

  /** What a generated name records: the collection, the id and the extension. */
  datatype NameParts = NameParts(kind: Kind, id: nat, ext: string)

  /** Reads `{kind}_{id}.{ext}` back; None for any name not of that shape. */
  function ParseGeneratedName(name: string): Option<NameParts> {
    var doll := KindPrefix(Doll) + "_";
    var fragment := KindPrefix(Fragment) + "_";
    if doll <= name then ParseIdAndExtension(Doll, name[|doll|..])
    else if fragment <= name then ParseIdAndExtension(Fragment, name[|fragment|..])
    else None
  }

  function ParseIdAndExtension(kind: Kind, rest: string): Option<NameParts> {
    var dot := FirstIndexOf(rest, '.');
    if dot == 0 || dot == |rest| || !AllDigits(rest[..dot]) then None
    else Some(NameParts(kind, ParseDecimal(rest[..dot]), rest[dot + 1..]))
  }

  lemma FirstDotAfterDigits(digits: string, ext: string)
    requires AllDigits(digits)
    ensures FirstIndexOf(digits + "." + ext, '.') == |digits|
  {
    var rest := digits + "." + ext;
    var dot := FirstIndexOf(rest, '.');
    assert rest[|digits|] == '.';
  }

  /** The part after the prefix, `{digits}.{ext}`, reads back as the number and the extension. */
  lemma IdAndExtensionParse(kind: Kind, digits: string, ext: string)
    requires digits != [] && AllDigits(digits)
    ensures ParseIdAndExtension(kind, digits + "." + ext) == Some(NameParts(kind, ParseDecimal(digits), ext))
  {
    var rest := digits + "." + ext;
    FirstDotAfterDigits(digits, ext);
    assert rest[..|digits|] == digits;
    assert rest[|digits| + 1..] == ext;
  }

  /** Reading back `{kind}_{digits}.{ext}` gives the kind, the number and the extension. */
  lemma ComposedNameParses(kind: Kind, digits: string, ext: string)
    requires digits != [] && AllDigits(digits)
    ensures ParseGeneratedName(KindPrefix(kind) + "_" + digits + "." + ext)
            == Some(NameParts(kind, ParseDecimal(digits), ext))
  {
    var rest := digits + "." + ext;
    var prefix := KindPrefix(kind) + "_";
    var name := prefix + digits + "." + ext;
    assert name == prefix + rest;
    assert name[|prefix|..] == rest;
    IdAndExtensionParse(kind, digits, ext);
    if kind == Fragment {
      assert name[0] == 'f';
    }
  }

  /** A generated name determines the collection, the id and the chosen extension. */
  lemma GeneratedNameParses(kind: Kind, id: nat, path: string)
    ensures ParseGeneratedName(GeneratedName(kind, id, path)) == Some(NameParts(kind, id, ChooseExtension(path)))
  {
    ComposedNameParses(kind, DecimalDigits(id), ChooseExtension(path));
    ParseDecimalInvertsDecimalDigits(id);
  }

  /** Doll 1 with no path is written to `doll_1.png`; fragment 12 from `a/b.webp` to `fragment_12.png`. */
  lemma GeneratedNameExamples()
    ensures GeneratedName(Doll, 1, "") == "doll_1.png"
    ensures GeneratedName(Fragment, 12, "a/b.webp") == "fragment_12.png"
  {
    LastIndexAt("a/b.webp", '/', 1);
    assert "a/b.webp"[2..] == "b.webp";
    assert FileName("a/b.webp") == Some("b.webp");
    LastIndexAt("b.webp", '.', 1);
    assert "b.webp"[2..] == "webp";
    assert ChooseExtension("a/b.webp") == "png";
    assert DecimalDigits(12) == "12";
  }

  /**
   * Distinct ids give distinct names within a collection, and the prefixes
   * keep doll names and fragment names apart.
   */
  lemma GeneratedNameInjective(kind1: Kind, id1: nat, path1: string, kind2: Kind, id2: nat, path2: string)
    requires GeneratedName(kind1, id1, path1) == GeneratedName(kind2, id2, path2)
    ensures kind1 == kind2 && id1 == id2 && ChooseExtension(path1) == ChooseExtension(path2)
  {
    GeneratedNameParses(kind1, id1, path1);
    GeneratedNameParses(kind2, id2, path2);
  }

  /** `{kind}_{digits}.{ext}` contains no `/`. */
  lemma ComposedNameHasNoSlash(kind: Kind, digits: string, ext: string)
    requires AllDigits(digits) && '/' !in ext
    ensures forall i :: 0 <= i < |KindPrefix(kind) + "_" + digits + "." + ext| ==>
              (KindPrefix(kind) + "_" + digits + "." + ext)[i] != '/'
  {
    var stem := KindPrefix(kind) + "_" + digits;
    var name := stem + "." + ext;
    assert forall i :: 0 <= i < |stem| ==> stem[i] != '/';
    forall i | 0 <= i < |name| ensures name[i] != '/' {
      if i < |stem| { assert name[i] == stem[i]; }
      else if i > |stem| { assert name[i] == ext[i - |stem| - 1]; }
    }
  }

  /** `{kind}_{digits}.{ext}` has no `/`, so it is its own final component. */
  lemma ComposedNameIsFileName(kind: Kind, digits: string, ext: string)
    requires AllDigits(digits) && '/' !in ext
    ensures FileName(KindPrefix(kind) + "_" + digits + "." + ext) == Some(KindPrefix(kind) + "_" + digits + "." + ext)
  {
    var name := KindPrefix(kind) + "_" + digits + "." + ext;
    ComposedNameHasNoSlash(kind, digits, ext);
    assert LastIndexOf(name, '/') == -1;
    assert name[0] == 'd' || name[0] == 'f';
    assert name[0..] == name;
  }

  /** A generated name is a bare file name whose extension is the chosen one. */
  lemma GeneratedNameExtension(kind: Kind, id: nat, path: string)
    ensures FileName(GeneratedName(kind, id, path)) == Some(GeneratedName(kind, id, path))
    ensures PathExtension(GeneratedName(kind, id, path)) == Some(ChooseExtension(path))
  {
    var digits := DecimalDigits(id);
    var ext := ChooseExtension(path);
    var stem := KindPrefix(kind) + "_" + digits;
    var name := GeneratedName(kind, id, path);
    ComposedNameIsFileName(kind, digits, ext);
    assert stem != "";
    ExtensionIsTextAfterLastDot(name, ext);
  }

  /** Choosing a name for a path that is already the generated name changes nothing. */
  lemma GeneratedNameFixpoint(kind: Kind, id: nat, path: string)
    ensures GeneratedName(kind, id, GeneratedName(kind, id, path)) == GeneratedName(kind, id, path)
  {
    GeneratedNameExtension(kind, id, path);
  }
}
