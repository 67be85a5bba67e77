/** The part of Rust's `std::path` the converter uses, on Unix.

    A path is held in the form `Path::components` yields: an optional leading
    `RootDir` or `CurDir`, then `Normal` names and `ParentDir`s. Repeated
    separators, a trailing separator and interior `.` are already gone, which
    is also how Rust compares two paths for equality. A name is an `OsStr`:
    characters, plus raw bytes for a name that is not valid UTF-8. */
module Paths {
  import opened Fallible

  /** One unit of an `OsStr`: a character, or a byte that is not part of any
      valid UTF-8 sequence. */
  datatype OsUnit = Ch(c: char) | Raw(b: bv8)

  type OsStr = seq<OsUnit>

  datatype Component = RootDir | CurDir | ParentDir | Normal(name: OsStr)

  type Path = seq<Component>

  function OsFrom(s: string): (o: OsStr)
    ensures |o| == |s|
    ensures forall i :: 0 <= i < |s| ==> o[i] == Ch(s[i])
  {
    seq(|s|, i requires 0 <= i < |s| => Ch(s[i]))
  }

  /** `OsStr::to_str`: the text of the name when it is valid UTF-8. */
  function ToStr(o: OsStr): (r: Option<string>)
    ensures r.Some? <==> forall i :: 0 <= i < |o| ==> o[i].Ch?
    ensures r.Some? ==> OsFrom(r.value) == o
    decreases |o|
  {
    if |o| == 0 then Some("")
    else if o[|o| - 1].Raw? then None
    else match ToStr(o[..|o| - 1])
      case None => None
      case Some(s) => Some(s + [o[|o| - 1].c])
  }

  lemma ToStrOsFrom(s: string)
    ensures ToStr(OsFrom(s)) == Some(s)
  {
    assert forall i :: 0 <= i < |OsFrom(s)| ==> OsFrom(s)[i].Ch?;
    var r := ToStr(OsFrom(s));
    assert r.Some?;
    assert OsFrom(r.value) == OsFrom(s);
    assert |r.value| == |s|;
    forall i | 0 <= i < |s|
      ensures r.value[i] == s[i]
    {
      assert OsFrom(r.value)[i] == OsFrom(s)[i];
    }
    assert r.value == s;
  }

  lemma OsFromConcat(a: string, b: string)
    ensures OsFrom(a + b) == OsFrom(a) + OsFrom(b)
  {
  }

  /** A name `Path::components` can yield as `Normal`. */
  predicate ValidName(n: OsStr) {
    && |n| > 0
    && n != [Ch('.')]
    && n != [Ch('.'), Ch('.')]
    && forall i :: 0 <= i < |n| ==> n[i] != Ch('/') && (n[i].Raw? ==> n[i].b >= 0x80)
  }

  /** A component sequence in the normal form `Path::components` yields. */
  predicate ValidPath(p: Path) {
    forall i :: 0 <= i < |p| ==>
      && (i > 0 ==> p[i].Normal? || p[i].ParentDir?)
      && (p[i].Normal? ==> ValidName(p[i].name))
  }

  predicate IsAbsolute(p: Path) {
    |p| > 0 && p[0] == RootDir
  }

  /** `Path::file_name`: the last component when it is a name. */
  function FileName(p: Path): Option<OsStr> {
    if |p| > 0 && p[|p| - 1].Normal? then Some(p[|p| - 1].name) else None
  }

  /** Index of the last `.` of a name, if any. */
  function LastDot(n: OsStr): (r: Option<nat>)
    ensures r.Some? ==> r.value < |n| && n[r.value] == Ch('.')
    ensures r.Some? ==> forall j :: r.value < j < |n| ==> n[j] != Ch('.')
    ensures r.None? ==> forall j :: 0 <= j < |n| ==> n[j] != Ch('.')
    decreases |n|
  {
    if |n| == 0 then None
    else if n[|n| - 1] == Ch('.') then Some(|n| - 1)
    else LastDot(n[..|n| - 1])
  }

  /** Rust's private `rsplit_file_at_dot`: the parts before and after the last
      dot; a name whose only dot leads it, and `..`, are not split. */
  function SplitAtDot(n: OsStr): (Option<OsStr>, Option<OsStr>) {
    if n == [Ch('.'), Ch('.')] then (Some(n), None)
    else match LastDot(n)
      case None => (None, Some(n))
      case Some(k) => if k == 0 then (Some(n), None) else (Some(n[..k]), Some(n[k + 1..]))
  }

  /** `Path::extension`. */
  function Extension(p: Path): Option<OsStr> {
    match FileName(p)
    case None => None
    case Some(n) =>
      var (before, after) := SplitAtDot(n);
      if before.Some? then after else None
  }

  /** `Path::file_stem`. */
  function FileStem(p: Path): Option<OsStr> {
    match FileName(p)
    case None => None
    case Some(n) =>
      var (before, after) := SplitAtDot(n);
      if before.Some? then before else after
  }

  /** `Path::strip_prefix`, which matches whole components. */
  function StripPrefix(p: Path, base: Path): Option<Path> {
    if |base| <= |p| && p[..|base|] == base then Some(p[|base|..]) else None
  }

  /** `Path::join`: an absolute right operand replaces the base; otherwise the
      operand is appended, and its leading `.` disappears inside the result. */
  function Join(base: Path, rel: Path): Path {
    if IsAbsolute(rel) || |base| == 0 then rel
    else if |rel| > 0 && rel[0] == CurDir then base + rel[1..]
    else base + rel
  }

  /** `PathBuf::set_extension`: a path with no file name is left alone;
      otherwise the name is cut after its stem and `.ext` is appended (nothing
      when `ext` is empty). */
  function SetExtension(p: Path, ext: OsStr): Path {
    match FileStem(p)
    case None => p
    case Some(stem) =>
      p[..|p| - 1] + [Normal(stem + if |ext| > 0 then [Ch('.')] + ext else [])]
  }

  /** The extension of a well-formed name is the text after its last dot,
      unless that dot is the first character. */
  lemma ExtensionOfName(p: Path)
    requires FileName(p).Some? && ValidName(FileName(p).value)
    ensures var n := FileName(p).value;
      match LastDot(n)
      case None => Extension(p).None?
      case Some(k) => Extension(p) == (if k == 0 then None else Some(n[k + 1..]))
  {
  }

  /** `a.b` split at its last dot: stem `a`, extension `b`. */
  lemma ExtensionOfDottedName(prefix: Path, stem: OsStr, ext: OsStr)
    requires |stem| > 0 && (|ext| > 0 || stem != [Ch('.')])
    requires forall j :: 0 <= j < |ext| ==> ext[j] != Ch('.')
    ensures Extension(prefix + [Normal(stem + [Ch('.')] + ext)]) == Some(ext)
    ensures FileStem(prefix + [Normal(stem + [Ch('.')] + ext)]) == Some(stem)
  {
    var p := prefix + [Normal(stem + [Ch('.')] + ext)];
    var n := stem + [Ch('.')] + ext;
    assert FileName(p) == Some(n);
    assert n[|stem|] == Ch('.');
    var k := LastDot(n);
    assert forall j :: |stem| < j < |n| ==> n[j] == ext[j - |stem| - 1];
    assert k == Some(|stem|);
    assert n != [Ch('.'), Ch('.')] by {
      if |n| == 2 {
        assert |stem| == 1 && |ext| == 0;
        assert stem == [n[0]];
      }
    }
    assert n[..|stem|] == stem;
    assert n[|stem| + 1..] == ext;
  }

  /** A name with no dot, or whose only dot leads it (`.csv`), has no extension. */
  lemma NoExtensionWithoutInnerDot(prefix: Path, n: OsStr)
    requires ValidName(n)
    requires forall j :: 1 <= j < |n| ==> n[j] != Ch('.')
    ensures Extension(prefix + [Normal(n)]).None?
    ensures FileStem(prefix + [Normal(n)]) == Some(n)
  {
    assert FileName(prefix + [Normal(n)]) == Some(n);
    var k := LastDot(n);
    assert k.None? || k.value == 0;
  }

  /** Stripping a component prefix and joining it back gives the path again. */
  lemma JoinStripPrefix(p: Path, base: Path)
    requires ValidPath(p)
    requires StripPrefix(p, base).Some?
    ensures Join(base, StripPrefix(p, base).value) == p
  {
    var rest := StripPrefix(p, base).value;
    assert rest == p[|base|..];
    if |base| > 0 && |rest| > 0 {
      assert rest[0] == p[|base|];
      assert p == base + rest;
    }
  }

  /** Joining a relative path under a base and stripping the base gives the
      relative path back. */
  lemma StripPrefixJoin(base: Path, rel: Path)
    requires |base| > 0 && ValidPath(rel)
    requires !IsAbsolute(rel) && (|rel| == 0 || rel[0] != CurDir)
    ensures StripPrefix(Join(base, rel), base) == Some(rel)
  {
    assert Join(base, rel) == base + rel;
    assert (base + rel)[..|base|] == base;
    assert (base + rel)[|base|..] == rel;
  }

  /** After `set_extension(ext)` on a path with a file name, the new extension
      is `ext`, the stem is unchanged, and every earlier component is unchanged. */
  lemma SetExtensionSpec(p: Path, ext: OsStr)
    requires FileName(p).Some? && ValidName(FileName(p).value)
    requires |ext| > 0 && forall j :: 0 <= j < |ext| ==> ext[j] != Ch('.')
    ensures var r := SetExtension(p, ext);
      && |r| == |p|
      && r[..|p| - 1] == p[..|p| - 1]
      && Extension(r) == Some(ext)
      && FileStem(r) == FileStem(p)
  {
    var stem := FileStem(p).value;
    assert |stem| > 0 by {
      var n := FileName(p).value;
      match LastDot(n)
      case None =>
      case Some(k) =>
    }
    var r := SetExtension(p, ext);
    assert stem + ([Ch('.')] + ext) == stem + [Ch('.')] + ext;
    assert r == p[..|p| - 1] + [Normal(stem + [Ch('.')] + ext)];
    ExtensionOfDottedName(p[..|p| - 1], stem, ext);
  }

  /** A path that does not end in a name is left unchanged by `set_extension`. */
  /** `join` keeps the file name of its right operand. */
  lemma JoinKeepsFileName(base: Path, rel: Path)
    requires FileName(rel).Some?
    ensures FileName(Join(base, rel)) == FileName(rel)
  {
    if !IsAbsolute(rel) && |base| > 0 && rel[0] == CurDir {
      assert |rel| > 1;
    }
  }

  lemma SetExtensionWithoutFileName(p: Path, ext: OsStr)
    requires FileName(p).None?
    ensures SetExtension(p, ext) == p
  {
  }
}
