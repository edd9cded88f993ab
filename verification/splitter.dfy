/**
 * `split_image` and `main` without pixels or filesystem: for each image the
 * output folder that is (re)created and, in order, the box each crop takes
 * and the file it is saved to.  The image size, which PIL reads from the
 * file, is a parameter.
 */
module Splitter {
  import opened Cells
  import opened Planner
  import opened Naming
  import opened Args

  /** One `image.crop(box).save(path)` (lines 95-98). */
  datatype TileWrite = TileWrite(box: Box, path: string)

  /** What one call of `split_image` produces. */
  datatype ImageTiles = ImageTiles(folder: string, writes: seq<TileWrite>)

  /** The path line 97 saves the tile with this box to. */
  function TilePath(folder: string, imagePath: string, box: Box): string {
    PathJoin(folder, TileName(Stem(imagePath), box, Ext(imagePath)))
  }

  /** `tiles` is the output of `split_image` for this image: its folder, then one write per box in order. */
  predicate TilesOf(tiles: ImageTiles, imagePath: string, outPath: string, boxes: seq<Box>) {
    && tiles.folder == PathJoin(outPath, OutFolderName(imagePath))
    && |tiles.writes| == |boxes|
    && forall i :: 0 <= i < |boxes| ==>
         tiles.writes[i] == TileWrite(boxes[i], TilePath(tiles.folder, imagePath, boxes[i]))
  }

  /** The output of `split_image` built directly: the folder, then one write per box in order. */
  function ExpectedTiles(imagePath: string, outPath: string, boxes: seq<Box>): ImageTiles {
    var folder := PathJoin(outPath, OutFolderName(imagePath));
    ImageTiles(folder, seq(|boxes|, i requires 0 <= i < |boxes| => TileWrite(boxes[i], TilePath(folder, imagePath, boxes[i]))))
  }

  /** `TilesOf` describes exactly one output: the one `ExpectedTiles` builds. */
  lemma {:induction false} TilesOfExactly(tiles: ImageTiles, imagePath: string, outPath: string, boxes: seq<Box>)
    ensures TilesOf(tiles, imagePath, outPath, boxes) <==> tiles == ExpectedTiles(imagePath, outPath, boxes)
  {
    var e := ExpectedTiles(imagePath, outPath, boxes);
    assert TilesOf(e, imagePath, outPath, boxes);
    if TilesOf(tiles, imagePath, outPath, boxes) {
      assert tiles.writes == e.writes;
    }
  }

  /** The folder is a directory prefix of p: p extends it past a '/' that ends the folder or follows it. */
  predicate InFolder(p: string, folder: string) {
    && |folder| < |p| && p[..|folder|] == folder
    && ((|folder| > 0 && folder[|folder| - 1] == '/') || p[|folder|] == '/')
  }

  /** Every tile file lies strictly inside the image's folder. */
  lemma {:induction false} TilePathInFolder(folder: string, imagePath: string, box: Box)
    requires |folder| > 0
    ensures InFolder(TilePath(folder, imagePath, box), folder)
  {
    TileNameRelative(imagePath, box, Ext(imagePath));
  }

  /** Two different boxes of one grid are saved to two different paths. */
  lemma {:induction false} TilePathsDistinct(g: Geometry, folder: string, imagePath: string, i: nat, j: nat)
    requires g.Positive() && i < |Grid(g)| && j < |Grid(g)| && i != j
    ensures TilePath(folder, imagePath, Grid(g)[i]) != TilePath(folder, imagePath, Grid(g)[j])
  {
    var a, b := Grid(g)[i], Grid(g)[j];
    var stem, ext := Stem(imagePath), Ext(imagePath);
    GridCornersDistinct(g, i, j);
    TileNameInjective(stem, ext, a, b);
    TileNameRelative(imagePath, a, ext);
    TileNameRelative(imagePath, b, ext);
    PathJoinInjective(folder, TileName(stem, a, ext), TileName(stem, b, ext));
  }

  /**
   * `split_image` (lines 71-116), with oversize tiles clamped to the image:
   * the folder is `<out>/<stem>_tiled`, one file is written per grid box in
   * row-major order, ceil(W / tx) * ceil(H / ty) files in all, every file
   * lies in that folder, and no two files share a path, so no tile
   * overwrites another.
   */
  method SplitImage(imagePath: string, outPath: string, g: Geometry) returns (result: ImageTiles)
    requires g.Positive()
    ensures TilesOf(result, imagePath, outPath, Grid(g))
    ensures |result.writes| == Times(CeilDiv(g.height, g.tileY), CeilDiv(g.width, g.tileX))
    ensures forall i :: 0 <= i < |result.writes| ==> InFolder(result.writes[i].path, result.folder)
    ensures forall i, j :: 0 <= i < j < |result.writes| ==> result.writes[i].path != result.writes[j].path
  {
    var boxes := PlanTiles(g);
    result := ExpectedTiles(imagePath, outPath, boxes);
    TilesOfExactly(result, imagePath, outPath, boxes);
    TilesOfPaths(result, imagePath, outPath, g);
  }

  /** The files of one image all lie in its folder and have pairwise different paths. */
  lemma {:induction false} TilesOfPaths(tiles: ImageTiles, imagePath: string, outPath: string, g: Geometry)
    requires g.Positive() && TilesOf(tiles, imagePath, outPath, Grid(g))
    ensures forall i :: 0 <= i < |tiles.writes| ==> InFolder(tiles.writes[i].path, tiles.folder)
    ensures forall i, j :: 0 <= i < j < |tiles.writes| ==> tiles.writes[i].path != tiles.writes[j].path
  {
    forall i | 0 <= i < |tiles.writes|
      ensures InFolder(tiles.writes[i].path, tiles.folder)
    {
      TilePathInFolder(tiles.folder, imagePath, Grid(g)[i]);
    }
    forall i, j | 0 <= i < j < |tiles.writes|
      ensures tiles.writes[i].path != tiles.writes[j].path
    {
      TilePathsDistinct(g, tiles.folder, imagePath, i, j);
    }
  }

  /** The geometry of one image of a batch: its own size, the configuration's tile size. */
  function ImageGeometry(config: Config, size: (nat, nat)): Geometry {
    Geometry(size.0, size.1, config.tileX, config.tileY)
  }

  /**
   * `main` (lines 119-122): every selected image, in order, is split with the
   * one tile size of the configuration; `sizes[i]` is the size PIL reports
   * for `files[i]`.
   */
  method SplitAll(config: Config, sizes: seq<(nat, nat)>) returns (results: seq<ImageTiles>)
    requires config.tileX > 0 && config.tileY > 0
    requires |sizes| == |config.files|
    requires forall i :: 0 <= i < |sizes| ==> sizes[i].0 > 0 && sizes[i].1 > 0
    ensures |results| == |config.files|
    ensures SplitsOf(results, config, sizes)
  {
    ghost var expected := ExpectedSplits(config, sizes);
    results := [];
    for i := 0 to |config.files|
      invariant results == expected[..i]
    {
      var g := ImageGeometry(config, sizes[i]);
      var tiles := SplitImage(config.files[i], config.outPath, g);
      TilesOfExactly(tiles, config.files[i], config.outPath, Grid(g));
      PrefixExtend(expected, i);
      results := results + [tiles];
    }
    assert results == expected;
    ExpectedSplitsAreSplits(config, sizes);
  }

  /** The splits of a whole batch, built directly, image by image. */
  function ExpectedSplits(config: Config, sizes: seq<(nat, nat)>): seq<ImageTiles>
    requires config.tileX > 0 && config.tileY > 0
    requires |sizes| == |config.files|
    requires forall i :: 0 <= i < |sizes| ==> sizes[i].0 > 0 && sizes[i].1 > 0
  {
    seq(|sizes|, j requires 0 <= j < |sizes| =>
      ExpectedTiles(config.files[j], config.outPath, Grid(ImageGeometry(config, sizes[j]))))
  }

  /** Directly built splits are splits in the sense of `TilesOf`. */
  lemma {:induction false} ExpectedSplitsAreSplits(config: Config, sizes: seq<(nat, nat)>)
    requires config.tileX > 0 && config.tileY > 0
    requires |sizes| == |config.files|
    requires forall i :: 0 <= i < |sizes| ==> sizes[i].0 > 0 && sizes[i].1 > 0
    ensures SplitsOf(ExpectedSplits(config, sizes), config, sizes)
  {
    var rs := ExpectedSplits(config, sizes);
    forall j | 0 <= j < |rs|
      ensures SplitOf(rs[j], config, sizes[j], config.files[j])
    {
      TilesOfExactly(rs[j], config.files[j], config.outPath, Grid(ImageGeometry(config, sizes[j])));
    }
  }

  /** `tiles` is the split of `file`, an image of the given size, under the configuration. */
  predicate SplitOf(tiles: ImageTiles, config: Config, size: (nat, nat), file: string) {
    && ImageGeometry(config, size).Positive()
    && TilesOf(tiles, file, config.outPath, Grid(ImageGeometry(config, size)))
  }

  /** Every result of `results` is the split of the image at its index, under one configuration. */
  predicate SplitsOf(results: seq<ImageTiles>, config: Config, sizes: seq<(nat, nat)>)
    requires |results| <= |sizes| == |config.files|
  {
    forall j :: 0 <= j < |results| ==> SplitOf(results[j], config, sizes[j], config.files[j])
  }
}
