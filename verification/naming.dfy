/**
 * How `split_image` names its output: the image stem and extension, the
 * per-image output folder `<stem>_tiled`, and one file `<stem>_<top>_<left>.<ext>`
 * per tile, joined with POSIX `os.path.join`.
 */
module Naming {
  import opened Text
  import opened Decimal
  import opened Planner

  /** `os.path.basename`: the text after the last '/'. */
  function Basename(path: string): (b: string)
    ensures EndsWith(path, b) && '/' !in b
    ensures |b| < |path| ==> path[|path| - |b| - 1] == '/'
  {
    AfterLast(path, '/')
  }

  /** Some character before index d of b is not a dot. */
  predicate HasNonDotBefore(b: string, d: nat)
    requires d <= |b|
  {
    exists k :: 0 <= k < d && b[k] != '.'
  }

  /**
   * `os.path.splitext(b)[0]` for a name b without '/': cut at the last dot,
   * unless only dots precede it (".bashrc" and "..png" have no extension).
   */
  function StemOf(b: string): (root: string)
    ensures |root| <= |b| && root == b[..|root|]
    ensures |root| < |b| ==> b[|root|] == '.' && '.' !in b[|root| + 1..] && HasNonDotBefore(b, |root|)
    ensures |root| == |b| ==> forall d :: 0 <= d < |b| && b[d] == '.' && '.' !in b[d + 1..] ==> !HasNonDotBefore(b, d)
  {
    var d := LastIndex(b, '.');
    if d >= 0 && HasNonDotBefore(b, d) then b[..d] else b
  }

  /** The image name without its extension (lines 76 and 85). */
  function Stem(imagePath: string): (stem: string)
    ensures '/' !in stem
    ensures |stem| <= |Basename(imagePath)| && stem == Basename(imagePath)[..|stem|]
  {
    StemOf(Basename(imagePath))
  }

  /** `image_path.split(".")[-1]` (line 86): the text after the last dot of the whole path. */
  function Ext(imagePath: string): (ext: string)
    ensures EndsWith(imagePath, ext) && '.' !in ext
    ensures |ext| < |imagePath| ==> imagePath[|imagePath| - |ext| - 1] == '.'
    ensures ext == imagePath <==> '.' !in imagePath
  {
    AfterLast(imagePath, '.')
  }

  /** The per-image output folder name (lines 75-77). */
  function OutFolderName(imagePath: string): (name: string)
    ensures '/' !in name && EndsWith(name, "_tiled")
  {
    var stem := Stem(imagePath);
    var name := stem + "_tiled";
    assert name[..|stem|] == stem && name[|stem|..] == "_tiled";
    assert forall k :: 0 <= k < |name| ==> name[k] != '/' by {
      forall k | 0 <= k < |name| ensures name[k] != '/' {
        if k < |stem| { assert name[k] == stem[k]; } else { assert name[k] == "_tiled"[k - |stem|]; }
      }
    }
    name
  }

  /** POSIX `os.path.join(a, b)`: an absolute b replaces a; otherwise one '/' separates them. */
  function PathJoin(a: string, b: string): (p: string)
    ensures |b| > 0 && b[0] == '/' ==> p == b
    ensures (|b| == 0 || b[0] != '/') ==> |a| + |b| <= |p| <= |a| + 1 + |b| && EndsWith(p, b) && p[..|a|] == a
    ensures (|b| == 0 || b[0] != '/') ==> (|p| == |a| + |b| <==> |a| == 0 || a[|a| - 1] == '/')
    ensures (|b| == 0 || b[0] != '/') && |p| > |a| + |b| ==> p[|a|] == '/'
  {
    if |b| > 0 && b[0] == '/' then b
    else if |a| == 0 || a[|a| - 1] == '/' then a + b
    else a + "/" + b
  }

  /**
   * `PathJoin`'s clauses for a relative second part leave no freedom: any
   * string that starts with a, ends with b, and puts nothing or a single '/'
   * between them as those clauses say, is the join.
   */
  lemma {:induction false} PathJoinUnique(a: string, b: string, p: string)
    requires |b| == 0 || b[0] != '/'
    requires |a| + |b| <= |p| <= |a| + 1 + |b| && EndsWith(p, b) && p[..|a|] == a
    requires |p| == |a| + |b| <==> |a| == 0 || a[|a| - 1] == '/'
    requires |p| > |a| + |b| ==> p[|a|] == '/'
    ensures p == PathJoin(a, b)
  {
    if |p| == |a| + |b| {
      assert p == p[..|a|] + p[|a|..];
    } else {
      assert p == p[..|a|] + [p[|a|]] + p[|a| + 1..];
    }
  }

  /** The file name of one tile (line 97): `<stem>_<top>_<left>.<ext>`. */
  function TileName(stem: string, box: Box, ext: string): string {
    stem + "_" + Show(box.top) + "_" + Show(box.left) + "." + ext
  }

  /**
   * For an image `<dir><name>.<e>` whose name has a character other than a
   * dot and whose extension has no dot: the stem is the name and the
   * extension is e, so `Stem + "." + Ext` rebuilds the file name.
   */
  lemma {:induction false} StemAndExt(dir: string, name: string, e: string)
    requires |dir| == 0 || dir[|dir| - 1] == '/'
    requires '/' !in name && '/' !in e && '.' !in e
    requires HasNonDotBefore(name, |name|)
    ensures Stem(dir + name + "." + e) == name
    ensures Ext(dir + name + "." + e) == e
    ensures Basename(dir + name + "." + e) == Stem(dir + name + "." + e) + "." + Ext(dir + name + "." + e)
  {
    var file := name + "." + e;
    var path := dir + name + "." + e;
    assert path == dir + file;
    assert Basename(path) == file by {
      assert '/' !in file;
      AfterLastOf(dir, file, '/');
    }
    assert Stem(path) == name by {
      StemOfNamed(name, e);
    }
    assert Ext(path) == e by {
      assert path == (dir + name + ".") + e;
      AfterLastOf(dir + name + ".", e, '.');
    }
  }

  /** Splitting `<name>.<e>` at its extension gives back name. */
  lemma {:induction false} StemOfNamed(name: string, e: string)
    requires '.' !in e && HasNonDotBefore(name, |name|)
    ensures StemOf(name + "." + e) == name
  {
    var file := name + "." + e;
    assert file == (name + ".") + e;
    AfterLastOf(name + ".", e, '.');
    assert LastIndex(file, '.') == |name|;
    var k :| 0 <= k < |name| && name[k] != '.';
    assert file[k] == name[k];
    assert file[..|name|] == name;
  }

  /**
   * The output folder depends only on the directory and the name, not on the
   * extension: `a.jpg` and `a.png` beside each other share `a_tiled`.
   */
  lemma {:induction false} OutFolderIgnoresExtension(dir: string, name: string, e1: string, e2: string)
    requires |dir| == 0 || dir[|dir| - 1] == '/'
    requires '/' !in name && '/' !in e1 && '.' !in e1 && '/' !in e2 && '.' !in e2
    requires HasNonDotBefore(name, |name|)
    ensures OutFolderName(dir + name + "." + e1) == OutFolderName(dir + name + "." + e2) == name + "_tiled"
  {
    StemAndExt(dir, name, e1);
    StemAndExt(dir, name, e2);
  }

  /** A stem holds no '/', so a tile name never starts with one and is never an absolute path. */
  lemma {:induction false} TileNameRelative(imagePath: string, box: Box, ext: string)
    ensures '/' !in Stem(imagePath)
    ensures TileName(Stem(imagePath), box, ext)[0] != '/'
  {
    var b := Basename(imagePath);
    var root := StemOf(b);
    assert forall k :: 0 <= k < |root| ==> root[k] == b[k];
    assert '/' !in b;
  }

  /**
   * Tile names identify positions: with one stem and one extension, two
   * boxes get the same file name exactly when they have the same top-left corner.
   */
  lemma {:induction false} TileNameInjective(stem: string, ext: string, a: Box, b: Box)
    ensures TileName(stem, a, ext) == TileName(stem, b, ext) <==> a.top == b.top && a.left == b.left
  {
    if TileName(stem, a, ext) == TileName(stem, b, ext) {
      var prefix := stem + "_";
      TileNameParts(stem, a, ext);
      TileNameParts(stem, b, ext);
      assert CornerText(a, ext) == (prefix + CornerText(a, ext))[|prefix|..];
      assert CornerText(b, ext) == (prefix + CornerText(b, ext))[|prefix|..];
      CornerTextInjective(a, b, ext);
    }
  }

  /** What follows `<stem>_` in a tile name: `<top>_<left>.<ext>`. */
  function CornerText(box: Box, ext: string): string {
    Show(box.top) + "_" + (Show(box.left) + "." + ext)
  }

  /** A tile name is `<stem>_` followed by its corner text. */
  lemma {:induction false} TileNameParts(stem: string, box: Box, ext: string)
    ensures TileName(stem, box, ext) == stem + "_" + CornerText(box, ext)
  {
    var t, l := Show(box.top), Show(box.left);
    assert TileName(stem, box, ext) == (stem + "_") + (t + "_" + (l + "." + ext));
  }

  /** The text `<top>_<left>.<ext>` after the stem determines the corner. */
  lemma {:induction false} CornerTextInjective(a: Box, b: Box, ext: string)
    requires CornerText(a, ext) == CornerText(b, ext)
    ensures a.top == b.top && a.left == b.left
  {
    DigitsExclude(Show(a.top), '_');
    DigitsExclude(Show(b.top), '_');
    var tailA, tailB := Show(a.left) + "." + ext, Show(b.left) + "." + ext;
    CutAtSeparator(Show(a.top), tailA, Show(b.top), tailB, '_');
    assert Show(a.left) == tailA[..|tailA| - |ext| - 1];
    assert Show(b.left) == tailB[..|tailB| - |ext| - 1];
    ShowInjective(a.top, b.top);
    ShowInjective(a.left, b.left);
  }

  /** Joining one folder with two relative names gives equal paths only for equal names. */
  lemma {:induction false} PathJoinInjective(folder: string, n1: string, n2: string)
    requires |n1| > 0 && n1[0] != '/' && |n2| > 0 && n2[0] != '/'
    ensures PathJoin(folder, n1) == PathJoin(folder, n2) <==> n1 == n2
  {
  }
}
