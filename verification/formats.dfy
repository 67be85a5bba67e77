/** `FileFormat`: the input format named by a path's extension. */
module Formats {
  import opened Fallible
  import opened Strings
  import opened Paths

  datatype FileFormat = Csv | Json | Xml | Xls | Xlsx | Ods

  /** The lower-case extension that names each format. */
  function Tag(f: FileFormat): (t: string)
    ensures IsLowerAscii(t)
  {
    match f
    case Csv => "csv"
    case Json => "json"
    case Xml => "xml"
    case Xls => "xls"
    case Xlsx => "xlsx"
    case Ods => "ods"
  }

  /** The match on the lower-cased extension text. */
  function FromExtension(ext: string): (r: Option<FileFormat>)
    ensures r.Some? <==> Lower(ext) in SupportedExtensions()
    ensures r.Some? ==> Lower(ext) == Tag(r.value)
  {
    match Lower(ext)
    case "csv" => Some(Csv)
    case "json" => Some(Json)
    case "xml" => Some(Xml)
    case "xls" => Some(Xls)
    case "xlsx" => Some(Xlsx)
    case "ods" => Some(Ods)
    case _ => None
  }

  /** `FileFormat::from_path`: no extension, or one that is not UTF-8, gives
      `None`; otherwise the extension decides, ignoring case. */
  function FromPath(p: Path): (r: Option<FileFormat>)
    ensures Extension(p).None? ==> r.None?
    ensures r.Some? ==>
      && Extension(p).Some? && ToStr(Extension(p).value).Some?
      && Lower(ToStr(Extension(p).value).value) == Tag(r.value)
  {
    match Extension(p)
    case None => None
    case Some(ext) =>
      match ToStr(ext)
      case None => None
      case Some(s) => FromExtension(s)
  }

  /** `FileFormat::supported_extensions`. */
  function SupportedExtensions(): seq<string> {
    ["csv", "json", "xml", "xls", "xlsx", "ods"]
  }

  /** `FileFormat::is_supported`: the lower-cased UTF-8 extension is one of
      `supported_extensions`. */
  predicate IsSupported(p: Path)
    ensures IsSupported(p) <==>
      (Extension(p).Some? && ToStr(Extension(p).value).Some?
       && Lower(ToStr(Extension(p).value).value) in SupportedExtensions())
  {
    FromPath(p).Some?
  }

  /** The tags of distinct formats differ, so each extension names at most one format. */
  lemma TagInjective(f: FileFormat, g: FileFormat)
    ensures Tag(f) == Tag(g) ==> f == g
  {
  }

  /** An extension selects format `f` exactly when it spells `f`'s tag in any
      mix of cases; an extension that spells no tag selects nothing. */
  lemma FromExtensionSpec(ext: string)
    ensures forall f :: FromExtension(ext) == Some(f) <==> EqualsIgnoringCase(ext, Tag(f))
    ensures FromExtension(ext).None? <==> forall f :: !EqualsIgnoringCase(ext, Tag(f))
  {
    forall f
      ensures Lower(ext) == Tag(f) <==> EqualsIgnoringCase(ext, Tag(f))
    {
      LowerMatchesIgnoringCase(ext, Tag(f));
    }
  }

  /** The tag of every format selects that format. */
  lemma FromTag(f: FileFormat)
    ensures FromExtension(Tag(f)) == Some(f)
  {
    FromExtensionSpec(Tag(f));
    assert EqualsIgnoringCase(Tag(f), Tag(f));
  }

  /** The list of supported extensions is exactly the set of tags: each entry
      is accepted, and every accepted lower-case extension is listed. */
  lemma SupportedExtensionsAreTags()
    ensures |SupportedExtensions()| == 6
    ensures forall e :: e in SupportedExtensions() <==> exists f :: Tag(f) == e
    ensures forall e :: e in SupportedExtensions() ==> FromExtension(e).Some?
    ensures forall e :: IsLowerAscii(e) && FromExtension(e).Some? ==> e in SupportedExtensions()
  {
    ListedAreTags();
    TagsListed();
    LowerAcceptedListed();
  }

  lemma ListedAreTags()
    ensures forall e :: e in SupportedExtensions() ==> exists f :: Tag(f) == e
  {
    var all := [Csv, Json, Xml, Xls, Xlsx, Ods];
    assert forall i :: 0 <= i < 6 ==> SupportedExtensions()[i] == Tag(all[i]);
    forall e | e in SupportedExtensions()
      ensures exists f :: Tag(f) == e
    {
      var i :| 0 <= i < 6 && SupportedExtensions()[i] == e;
      assert Tag(all[i]) == e;
    }
  }

  lemma TagsListed()
    ensures forall f :: Tag(f) in SupportedExtensions() && FromExtension(Tag(f)) == Some(f)
  {
    forall f
      ensures Tag(f) in SupportedExtensions() && FromExtension(Tag(f)) == Some(f)
    {
      FromTag(f);
    }
  }

  lemma LowerAcceptedListed()
    ensures forall e :: IsLowerAscii(e) && FromExtension(e).Some? ==> e in SupportedExtensions()
  {
    forall e | IsLowerAscii(e) && FromExtension(e).Some?
      ensures e in SupportedExtensions()
    {
      assert Lower(e) == e;
    }
  }

  /** `from_path` in terms of the path: a UTF-8 extension that spells a tag
      ignoring case selects that format, and nothing else selects a format. */
  lemma FromPathSpec(p: Path)
    ensures forall f :: FromPath(p) == Some(f) <==>
      (Extension(p).Some? && ToStr(Extension(p).value).Some?
       && EqualsIgnoringCase(ToStr(Extension(p).value).value, Tag(f)))
    ensures Extension(p).None? ==> FromPath(p).None?
    ensures Extension(p).Some? && ToStr(Extension(p).value).None? ==> FromPath(p).None?
  {
    match Extension(p)
    case None =>
    case Some(ext) =>
      match ToStr(ext)
      case None =>
      case Some(s) => FromExtensionSpec(s);
  }

  /** A name ending in `.<tag>` with a non-empty stem is recognised, in any case. */
  lemma FromDottedName(prefix: Path, stem: string, ext: string, f: FileFormat)
    requires |stem| > 0 && EqualsIgnoringCase(ext, Tag(f))
    ensures FromPath(prefix + [Normal(OsFrom(stem + "." + ext))]) == Some(f)
  {
    IgnoringCaseKeepsLetters(ext, Tag(f));
    var p := prefix + [Normal(OsFrom(stem + "." + ext))];
    OsFromConcat(stem + ".", ext);
    OsFromConcat(stem, ".");
    assert OsFrom(".") == [Ch('.')];
    assert OsFrom(stem + "." + ext) == OsFrom(stem) + [Ch('.')] + OsFrom(ext);
    assert |ext| > 0 && forall j :: 0 <= j < |ext| ==> OsFrom(ext)[j] != Ch('.');
    ExtensionOfDottedName(prefix, OsFrom(stem), OsFrom(ext));
    assert Extension(p) == Some(OsFrom(ext));
    ToStrOsFrom(ext);
    FromExtensionSpec(ext);
    assert FromExtension(ext) == Some(f);
  }
}
