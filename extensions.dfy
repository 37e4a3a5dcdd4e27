/** The string logic of the extension changer: reading a file's extension,
    the label shown as its original extension, the file name suggested in the
    save dialog, and the rewrite that makes the chosen destination carry the
    selected extension. */
module Extensions {
  import opened Text
  import opened PosixPath

  /** The text the path field shows while no file is chosen. */
  const NoFileSelected := "No file selected"

  /** A path counts as chosen unless it is empty or the placeholder text. */
  predicate IsFileSelected(path: string) {
    path != "" && path != NoFileSelected
  }

  /** An extension the picker can offer: non-empty, lower case, without a dot
      or a path separator. */
  predicate IsChoice(ext: string) {
    ext != "" && IsLower(ext) && '.' !in ext && '/' !in ext
  }

  /** The placeholder text has no extension. */
  lemma PlaceholderHasNoExtension()
    ensures SplitExt(NoFileSelected) == (NoFileSelected, [])
  {
    NoDotNoExtension(NoFileSelected);
  }

  /** The text after the leading dot of a `splitext` extension, lower-cased. */
  lemma BareExtension(e: string)
    requires e == [] || (e[0] == '.' && '.' !in e[1..] && '/' !in e)
    ensures LStrip(Lower(e), '.') == if e == [] then [] else Lower(e[1..])
    ensures '.' !in LStrip(Lower(e), '.') && '/' !in LStrip(Lower(e), '.')
  {
    if e != [] {
      assert e == [e[0]] + e[1..];
      LowerAppend([e[0]], e[1..]);
      assert Lower([e[0]]) == ['.'];
      LowerKeepsNonLetters(e[1..], '.');
      LowerKeepsNonLetters(e[1..], '/');
      LStripOne(Lower(e[1..]), '.');
    }
  }

  /** `get_file_extension`: empty for the placeholder or an empty path; otherwise
      the `splitext` extension, lower-cased, without its dot. */
  function GetFileExtension(path: string): (ext: string)
    ensures !IsFileSelected(path) ==> ext == ""
    ensures IsLower(ext) && '.' !in ext && '/' !in ext
  {
    if !IsFileSelected(path) then ""
    else
      BareExtension(SplitExt(path).1);
      LStrip(Lower(SplitExt(path).1), '.')
  }

  /** For a chosen path, the extension is the lower-cased text after the last dot
      of the final path component, and empty when no character other than a
      dot stands before that dot (no dot at all, ".bashrc", "..."). */
  lemma GetFileExtensionIsTextAfterLastDot(path: string)
    requires IsFileSelected(path)
    ensures var b := Basename(path);
      GetFileExtension(path) == if HasDottedSuffix(b) then Lower(b[RFind(b, '.') + 1..]) else ""
  {
    SplitExtByBasename(path);
    BareExtension(SplitExt(path).1);
  }

  /** A final component whose only dots are leading ones (a hidden file such as
      ".bashrc") has no extension. */
  lemma HiddenFileHasNoExtension(path: string, k: nat)
    requires IsFileSelected(path)
    requires k <= |Basename(path)|
    requires AllChar(Basename(path)[..k], '.') && '.' !in Basename(path)[k..]
    ensures GetFileExtension(path) == ""
  {
    LeadingDotsOnly(Basename(path), k);
    GetFileExtensionIsTextAfterLastDot(path);
  }

  /** The original-extension label: "." + the extension, or "None" when the
      chosen file has no extension. Stripped of its leading dots, it equals an
      extension the picker offers exactly when the file's own extension does. */
  function OriginalLabel(path: string): (shown: string)
    ensures shown == "None" || (|shown| > 1 && shown[0] == '.' && shown[1..] == GetFileExtension(path))
    ensures shown == "None" <==> GetFileExtension(path) == ""
    ensures forall e :: IsChoice(e) ==> (LStrip(shown, '.') == e <==> GetFileExtension(path) == e)
  {
    var ext := GetFileExtension(path);
    if ext != "" then
      LStripOne(ext, '.');
      assert "." + ext == ['.'] + ext;
      "." + ext
    else
      assert LStrip("None", '.') == "None";
      assert !IsLowerChar("None"[0]);
      "None"
  }

  /** The save step warns when the stored label, stripped of its leading dots,
      differs from the chosen extension. For a chosen extension that test is the
      same as comparing the file's own extension with it. */
  lemma WarningIffExtensionsDiffer(path: string, ext: string)
    requires IsChoice(ext)
    ensures LStrip(OriginalLabel(path), '.') != ext <==> GetFileExtension(path) != ext
  {
    assert !IsLowerChar("None"[0]);
  }

  /** A file without an extension is stored with the label "None", which no
      chosen extension equals: the warning always fires for it. */
  lemma ExtensionlessAlwaysWarns(path: string, ext: string)
    requires IsChoice(ext)
    requires GetFileExtension(path) == ""
    ensures LStrip(OriginalLabel(path), '.') != ext
  {
    WarningIffExtensionsDiffer(path, ext);
  }

  /** The file name offered in the save dialog: the chosen file's name without
      its extension, then "." and the new extension. Putting the old extension
      back in place of the new one gives the chosen file's name again. */
  function SuggestedFilename(path: string, ext: string): (name: string)
    ensures '/' !in ext ==> '/' !in name
    ensures EndsWith(name, "." + ext)
    ensures name[..|name| - |ext| - 1] + SplitExt(Basename(path)).1 == Basename(path)
  {
    StemThenExtension(Basename(path), ext);
    SplitExt(Basename(path)).0 + ("." + ext)
  }

  /** A file name's stem followed by "." + ext ends with "." + ext, and putting the
      name's own extension back in its place gives the name again. */
  lemma StemThenExtension(b: string, ext: string)
    requires '/' !in b
    ensures var name := SplitExt(b).0 + ("." + ext);
      && ('/' !in ext ==> '/' !in name)
      && EndsWith(name, "." + ext)
      && name[..|name| - |ext| - 1] + SplitExt(b).1 == b
  {
    var stem := SplitExt(b).0;
    StemOfName(b);
    AppendParts(stem, "." + ext);
  }

  /** When the chosen file's name is not made of dots only, the suggested name
      splits into that name's stem and exactly the new extension, so the app
      reads the new extension back from it. */
  lemma SuggestedFilenameSplits(path: string, ext: string)
    requires IsChoice(ext)
    requires HasNonDot(Basename(path))
    ensures var b := Basename(path);
      && SplitExt(SuggestedFilename(path, ext)) == (SplitExt(b).0, "." + ext)
      && GetFileExtension(SuggestedFilename(path, ext)) == ext
  {
    var stem := SplitExt(Basename(path)).0;
    StemOfName(Basename(path));
    AppendExtension(stem, ext);
    ReadBackExtension(stem + "." + ext, ext);
  }

  /** A path whose `splitext` extension is "." + ext, for a chosen ext, reads back as ext. */
  lemma ReadBackExtension(path: string, ext: string)
    requires IsChoice(ext)
    requires SplitExt(path).1 == "." + ext
    ensures GetFileExtension(path) == ext
  {
    PlaceholderHasNoExtension();
    BareExtension("." + ext);
    assert ("." + ext)[1..] == ext;
  }

  /** The test of the save step: the path's own extension, lower-cased and
      without its dot, equals the selected one lower-cased. */
  predicate CarriesExtension(path: string, ext: string) {
    LStrip(Lower(SplitExt(path).1), '.') == Lower(ext)
  }

  /** For a chosen extension, that test agrees with reading the path's extension
      the way the app reads the selected file's. */
  lemma CarriesExtensionIff(path: string, ext: string)
    requires IsChoice(ext)
    ensures CarriesExtension(path, ext) <==> GetFileExtension(path) == ext
  {
    BareExtension(SplitExt(path).1);
    PlaceholderHasNoExtension();
    assert Lower([]) == [];
  }

  /** The save step's rewrite of the destination chosen in the save dialog: a
      path whose own extension already matches the selected one is kept; any
      other path gets its `splitext` root followed by "." + ext. The directory
      and the name stem the user chose are never altered. */
  function NormalizeSavePath(savePath: string, ext: string): (final: string)
    ensures final == savePath || final == SplitExt(savePath).0 + "." + ext
    ensures SplitExt(savePath).0 <= final
  {
    if CarriesExtension(savePath, ext) then savePath
    else SplitExt(savePath).0 + "." + ext
  }

  /** Whatever the user typed, the normalised destination ends, ignoring case,
      with "." and the selected extension. */
  lemma NormalizedEndsWithExtension(savePath: string, ext: string)
    requires ext != ""
    ensures EndsWith(Lower(NormalizeSavePath(savePath, ext)), "." + Lower(ext))
  {
    var (root, e) := SplitExt(savePath);
    if CarriesExtension(savePath, ext) {
      KeptEndsWithExtension(root, e, ext);
    } else {
      RewrittenEndsWithExtension(root, ext);
    }
  }

  /** A rewritten path ends, ignoring case, with "." and the selected extension. */
  lemma RewrittenEndsWithExtension(root: string, ext: string)
    ensures EndsWith(Lower(root + "." + ext), "." + Lower(ext))
  {
    assert root + "." + ext == root + ("." + ext);
    LowerAppend(root, "." + ext);
    LowerDotted(ext);
    AppendParts(Lower(root), "." + Lower(ext));
  }

  /** Lower-casing "." + ext gives "." + the lower-cased ext. */
  lemma LowerDotted(ext: string)
    ensures Lower("." + ext) == "." + Lower(ext)
  {
    LowerAppend(".", ext);
    assert Lower(".") == ".";
  }

  /** A kept path already ends, ignoring case, with "." and the selected extension. */
  lemma KeptEndsWithExtension(root: string, e: string, ext: string)
    requires e != [] && e[0] == '.' && '.' !in e[1..] && '/' !in e
    requires LStrip(Lower(e), '.') == Lower(ext)
    ensures EndsWith(Lower(root + e), "." + Lower(ext))
  {
    BareExtension(e);
    assert e == "." + e[1..];
    LowerDotted(e[1..]);
    LowerAppend(root, e);
    AppendParts(Lower(root), Lower(e));
  }

  /** Rewriting yields the chosen path itself only when that path already
      carries the extension. */
  lemma RewriteOnlyWhenNeeded(savePath: string, ext: string)
    requires IsChoice(ext)
    ensures SplitExt(savePath).0 + "." + ext == savePath ==> CarriesExtension(savePath, ext)
  {
    var (root, e) := SplitExt(savePath);
    if root + "." + ext == savePath {
      assert e == "." + ext by {
        assert e == (root + e)[|root|..];
        assert "." + ext == (root + "." + ext)[|root|..];
      }
      BareExtension(e);
      assert e[1..] == ext;
    }
  }

  /** A destination is left as it is exactly when the app would already read the
      selected extension from it. */
  lemma NormalizeKeepsExactlyMatching(savePath: string, ext: string)
    requires IsChoice(ext)
    ensures NormalizeSavePath(savePath, ext) == savePath <==> GetFileExtension(savePath) == ext
  {
    CarriesExtensionIff(savePath, ext);
    RewriteOnlyWhenNeeded(savePath, ext);
  }

  /** When the chosen destination's final component is not made of dots only,
      the app reads the selected extension back from the normalised path. */
  lemma NormalizedCarriesExtension(savePath: string, ext: string)
    requires IsChoice(ext)
    requires HasNonDot(Basename(savePath))
    ensures GetFileExtension(NormalizeSavePath(savePath, ext)) == ext
  {
    if CarriesExtension(savePath, ext) {
      CarriesExtensionIff(savePath, ext);
    } else {
      var root := SplitExt(savePath).0;
      RootKeepsNonDot(savePath);
      AppendExtension(root, ext);
      ReadBackExtension(root + "." + ext, ext);
    }
  }

  /** Normalising an already normalised destination changes nothing, provided
      the chosen final component is not made of dots only. */
  lemma NormalizeIdempotent(savePath: string, ext: string)
    requires IsChoice(ext)
    requires HasNonDot(Basename(savePath))
    ensures NormalizeSavePath(NormalizeSavePath(savePath, ext), ext) == NormalizeSavePath(savePath, ext)
  {
    NormalizedCarriesExtension(savePath, ext);
    NormalizeKeepsExactlyMatching(NormalizeSavePath(savePath, ext), ext);
  }

  /** A destination whose final component is made of dots only, such as "...",
      is rewritten to a path that `splitext` again reads without an extension,
      so a second pass appends the extension once more. */
  lemma NormalizeDotOnlyName(dir: string, ext: string)
    requires IsChoice(ext)
    ensures var once := NormalizeSavePath(dir + "/...", ext);
      once == dir + "/...." + ext && NormalizeSavePath(once, ext) == once + "." + ext
  {
    DotOnlySpellings(dir, ext);
    RewrittenAfterLeadingDots(dir + "/...", dir, "...", 3, ext);
    RewrittenAfterLeadingDots(dir + "/...." + ext, dir, "...." + ext, 4, ext);
  }

  /** The ways of writing the paths of the dot-only example agree. */
  lemma DotOnlySpellings(dir: string, ext: string)
    requires '/' !in ext && '.' !in ext
    ensures dir + "/..." == dir + "/" + "..."
    ensures dir + "/..." + "." + ext == dir + "/...." + ext == dir + "/" + ("...." + ext)
    ensures '/' !in "...." + ext && '.' !in ("...." + ext)[4..]
  {
    var name := "...." + ext;
    assert name[4..] == ext;
    assert forall i :: 0 <= i < |name| ==> name[i] == if i < 4 then '.' else ext[i - 4];
  }

  /** A final component whose only dots are leading ones is always rewritten:
      "." + ext is appended to the whole path. */
  lemma RewrittenAfterLeadingDots(p: string, dir: string, name: string, k: nat, ext: string)
    requires p == dir + "/" + name && '/' !in name && k <= |name|
    requires AllChar(name[..k], '.') && '.' !in name[k..]
    requires ext != ""
    ensures NormalizeSavePath(p, ext) == p + "." + ext
  {
    BasenameAfterSlash(dir, name);
    LeadingDotsOnly(name, k);
    NoDottedSuffixNoExtension(p);
    assert Lower([]) == [];
  }
}
