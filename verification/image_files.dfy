/**
 * `check_image_file`: which paths and directory entries the splitter treats
 * as images.  The test is a case-sensitive suffix match against a fixed list.
 */
module ImageFiles {
  import opened Text
  import opened Naming

  /** The allow-list of line 64, in its order. */
  const ImageExtensions: seq<string> := [".jpg", ".jpeg", ".tif", ".bmp", ".png", ".gif"]

  /** The name ends with one of the allowed extensions, letter case included. */
  predicate IsImageFile(name: string) {
    exists i :: 0 <= i < |ImageExtensions| && EndsWith(name, ImageExtensions[i])
  }

  /** `check_image_file` (lines 63-68): try each extension in turn and stop at the first match. */
  method CheckImageFile(image: string) returns (found: bool)
    ensures found <==> IsImageFile(image)
  {
    for i := 0 to |ImageExtensions|
      invariant forall j :: 0 <= j < i ==> !EndsWith(image, ImageExtensions[j])
    {
      if EndsWith(image, ImageExtensions[i]) {
        return true;
      }
    }
    return false;
  }

  /**
   * The extension that line 86 reads off an accepted path is the matching
   * list entry without its dot, so tiles keep the image's own format.
   */
  lemma {:induction false} ImageFileExt(path: string, i: nat)
    requires i < |ImageExtensions| && EndsWith(path, ImageExtensions[i])
    ensures Ext(path) == ImageExtensions[i][1..]
  {
    var e := ImageExtensions[i];
    assert e[0] == '.' && '.' !in e[1..];
    var q := path[..|path| - |e| + 1];
    assert path[|path| - |e|..] == e;
    assert path == q + e[1..];
    AfterLastOf(q, e[1..], '.');
  }

  /** Every accepted path has one of the six known extensions. */
  lemma {:induction false} ImageFileExtAllowed(path: string)
    requires IsImageFile(path)
    ensures Ext(path) in ["jpg", "jpeg", "tif", "bmp", "png", "gif"]
  {
    var i :| 0 <= i < |ImageExtensions| && EndsWith(path, ImageExtensions[i]);
    ImageFileExt(path, i);
    ExtensionName(i);
  }

  /** List entry i without its dot is one of the six extension names. */
  lemma {:induction false} ExtensionName(i: nat)
    requires i < |ImageExtensions|
    ensures ImageExtensions[i][1..] in ["jpg", "jpeg", "tif", "bmp", "png", "gif"]
  {
    if i == 0 { assert ImageExtensions[0][1..] == "jpg"; }
    else if i == 1 { assert ImageExtensions[1][1..] == "jpeg"; }
    else if i == 2 { assert ImageExtensions[2][1..] == "tif"; }
    else if i == 3 { assert ImageExtensions[3][1..] == "bmp"; }
    else if i == 4 { assert ImageExtensions[4][1..] == "png"; }
    else { assert ImageExtensions[5][1..] == "gif"; }
  }

  /** The match is case-sensitive and exact: `.JPG` and `.tiff` are not images, `.jpg` and `.tif` are. */
  lemma CaseSensitiveMatch()
    ensures !IsImageFile("photo.JPG") && !IsImageFile("scan.tiff")
    ensures IsImageFile("photo.jpg") && IsImageFile("scan.tif")
  {
    assert EndsWith("photo.jpg", ImageExtensions[0]);
    assert EndsWith("scan.tif", ImageExtensions[2]);
    UpperCaseRefused();
    LongerSuffixRefused();
  }

  /** Every extension ends in a lower-case letter, so "photo.JPG" matches none. */
  lemma UpperCaseRefused()
    ensures !IsImageFile("photo.JPG")
  {
    forall i | 0 <= i < |ImageExtensions|
      ensures !EndsWith("photo.JPG", ImageExtensions[i])
    {
      assert "photo.JPG"[8] == 'G';
    }
  }

  /** ".tif" is not a suffix of "scan.tiff", and neither is any other extension. */
  lemma LongerSuffixRefused()
    ensures !IsImageFile("scan.tiff")
  {
    forall i | 0 <= i < |ImageExtensions|
      ensures !EndsWith("scan.tiff", ImageExtensions[i])
    {
      assert "scan.tiff"[8] == 'f';
    }
  }
}
