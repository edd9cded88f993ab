# splitter — a verified model of the tile splitter

`splitter.py` cuts every image it is pointed at into rectangular tiles of a
fixed size. It writes them to `<out>/<stem>_tiled/<stem>_<top>_<left>.<ext>`.
This project models the core of that tool in Dafny:

- **Planner** (`planner.dfy`) models the crop loop of `split_image`.
  - The four cursors `left`, `top`, `right` and `bottom` are one `Box`.
  - `Start` and `Advance` are the source's cursor updates, branch for branch.
  - `Grid` is the closed-form row-major tile set. The loop is proved to
    enumerate it.
  - The tile set is proved to partition the image, in row-major order.
    Every box is a full tile except in the last column or row, and there are
    ceil(W/tx)·ceil(H/ty) boxes.
- **Naming** (`naming.dfy`) models the output names.
  - It covers POSIX `basename`, `splitext`, `join`, the `split(".")[-1]`
    extension, the `<stem>_tiled` folder and the `<stem>_<top>_<left>.<ext>`
    tile name.
  - It proves that tile names identify positions.
  - It proves that the folder does not depend on the extension.
- **ImageFiles** (`image_files.dfy`) models `check_image_file`, the
  case-sensitive extension allow-list.
- **Args** (`args.dfy`) models the part of `parse_args` after argparse: file
  selection and the `--t_size` parse `"<x>x<y>"`.
  - The parse checks field 0, then the field count, then field 1, in the
    order the source evaluates them.
  - A corrected `ParseArgs` refuses zero sizes.
- **Splitter** (`splitter.dfy`) models `split_image` and `main` as data.
  - For each image the model gives its output folder and the ordered list of
    (crop box, file path) writes.
  - No two writes of one image share a path.
- **Cells** (`cells.dfy`) holds the arithmetic of the grid.
  - `Times`, `Quot`, `Rem` and `CeilDiv` are defined by repeated addition
    and subtraction, so the grid proofs are inductions over linear
    arithmetic.
  - They are proved equal to `a * b`, `i // d`, `i % d` and
    `(n + d - 1) // d` (`TimesIs`, `QuotRemIs`, `CeilDivIs`).
- **Text** (`text.dfy`) and **Decimal** (`decimal.dfy`) hold the `str`
  operations used above:
  - `endswith`, `rfind`, and `split`/`join`, proved inverse;
  - decimal rendering and reading, proved inverse on numerals without a
    leading zero.

The image size, the directory listing and `isdir` are parameters. PIL reads
the image size; the filesystem answers the other two.

Where the code does not do what a user of the tool would expect, the model
follows the code:

- **Oversize tiles.**
  - A tile at least as large as the image is expected to give exactly one
    tile covering the image.
  - The code steps the cursors past the image instead and crops inverted
    boxes (Findings, row 1).
  - The corrected `Planner.PlanTiles` gives the single tile.
- **Fault isolation.**
  - An error in one image of a batch is expected to be reported while the
    rest continue.
  - `main` (lines 119-122) has no exception handling, so one failing image
    ends the run. The model has no errors after `parse_args`.
- **Shared folders.**
  - Each image is expected to own its output directory.
  - The folder name drops the extension, so `a.jpg` and `a.png` in one
    directory share `a_tiled`. The second image's `rmtree` removes the
    first one's tiles (`Naming.OutFolderIgnoresExtension`).
- **A single-integer size.**
  - A single integer is expected to mean square tiles.
  - `str.split` always returns a list, so lines 56-58 are dead code.
  - `"256"` fails at `tile_size[1]` (`Args.ParseTileSizeRefusals`).
- **Exit on no images.** `sys.exit()` with no argument (line 48) is modelled
  as the error `Args.NoImages`.

## Model

| member | source | states |
|---|---|---|
| Planner.Start | splitter.py:88-91 | No contract of its own: the cursors before the first crop, (left, top, right, bottom) = (0, 0, tx, ty). `Planner.PlanTilesAsWritten` states that the loop started from it crops the grid, and `Planner.OversizeTileInvertsBox` states its crops when the tile is larger than the image. |
| Planner.Done | splitter.py:99-100 | No contract of its own: the exit test `right == W and bottom == H` on the box just cropped. `Planner.GridExitsAtLast` states that it holds for the last grid box and for no earlier one. |
| Planner.Advance | splitter.py:101-116 | No contract of its own: the cursor update, branch for branch. `Planner.AdvanceColumn` and `Planner.AdvanceRow` state its two branches, `Planner.AdvanceFollowsGrid` states that it steps through the grid, and `Planner.ZeroTileNeverAdvances` states that it leaves the cursors unchanged when the tile width is 0. |
| Planner.PlanTilesAsWritten | splitter.py:88-116 | The crop loop as written, on tile sizes between 1 and the image size: it terminates, crops exactly the closed-form row-major grid, makes ceil(W/tx)·ceil(H/ty) crops, and its last box reaches (W, H). |
| Planner.GridCount | splitter.py:88-116 | The grid has rows·cols boxes, with cols = (W + tx − 1) div tx and rows = (H + ty − 1) div ty, that is ceil(W/tx)·ceil(H/ty). |
| Planner.AdvanceFollowsGrid | splitter.py:101-116 | When the tile fits, the cursor update takes every box of the grid to the next one. |
| Planner.AdvanceColumn | splitter.py:110-116 | Inside a row, the column branch moves from column c to column c+1, clipping the right edge on the last column. |
| Planner.AdvanceRow | splitter.py:101-109 | At the right edge, the row branch goes to column 0 of the next row, one tile step down, clipping the bottom on the last row. |
| Planner.GridExitsAtLast | splitter.py:99-100 | The exit test `right == W and bottom == H` holds for the last box of the grid and for no earlier box, so the loop stops exactly after the last tile. |
| Planner.GridBoxShape | splitter.py:101-116 | Every box is non-empty and inside the image. It is a full tile unless it is in the last column or row. Right == W exactly in the last column (index mod cols = cols − 1), and there the box is W − tx·⌊(W−1)/tx⌋ wide, written with `Times` and `Quot`. The same holds for the height and the last row. |
| Planner.GridRowMajor | splitter.py:101-116 | Row-major order. Inside a row, the next box starts at the previous box's right edge, on the same rows. After the right edge, the next box starts at left 0, one tile step lower. |
| Planner.GridPartition | splitter.py:88-116 | Every pixel of the W×H image lies in exactly one box, the one at index (y div ty)·cols + x div tx, written with `Times` and `Quot`. |
| Planner.GridDisjoint | splitter.py:88-116 | No pixel lies in two different boxes. |
| Planner.GridCornersDistinct | splitter.py:95-97 | Different boxes have different (top, left) pairs, the pair a tile is named by. |
| Planner.Example300x200 | splitter.py:88-116 | A 300×200 image with 128×128 tiles gives six boxes. The last column is 44 pixels wide and the last row 72 pixels high. |
| Planner.OversizeTileInvertsBox | splitter.py:101-116 | As written, a 100×100 image with 128×128 tiles crops (0,0,128,128), (128,0,100,128), (0,128,128,100) and (128,128,100,100). The second box has left > right. The closed-form grid is the single box (0,0,100,100). |
| Planner.ZeroTileNeverAdvances | splitter.py:94-116 | As written, with tile width 0 on a non-empty image, the first box fails the exit test and the cursor update leaves it unchanged, so the loop never ends. |
| Planner.ZeroHeightNeverExits | splitter.py:99-109 | As written, with tile height 0 on a non-empty image, a box with top = bottom = 0 never passes the exit test, the update keeps top = bottom = 0, and from the right edge the row branch returns the cursors to the start. So the loop never ends. |
| Planner.ZeroHeightCycles | splitter.py:88-109 | As written, `--t_size 64x0` on an image 128 wide moves the cursors from (0,0,64,0) to (64,0,128,0) and back to (0,0,64,0), and neither box passes the exit test. |
| Planner.OversizeHeightInvertsRow | splitter.py:99-116 | As written, a 300×100 image with 128×128 tiles crops three boxes of row 0, clipped at bottom 128 past the image, and then three boxes with top 128 > bottom 100 before the exit test holds. |
| Planner.OversizeWidthInvertsColumn | splitter.py:99-116 | As written, a 100×300 image with 128×128 tiles crops, in each of three rows, a box past the right edge and then a box with left 128 > right 100, and stops after the sixth box. |
| Planner.ClampTile | splitter.py:88-91 | Clipping the tile size to the image gives a tile that fits and leaves the tile set unchanged. |
| Planner.PlanTiles | splitter.py:88-116 | The corrected planner, for every positive size: it returns the grid and the ceil·ceil count. A tile at least as large as the image gives the single box (0,0,W,H). |
| Naming.Basename | splitter.py:76 | `os.path.basename`, also used on line 85: a suffix of the path without '/', preceded by a '/' whenever it is shorter than the path. |
| Naming.StemOf | splitter.py:76 | `os.path.splitext(...)[0]` of a base name: it cuts at the last dot exactly when that dot is preceded by some character other than a dot, and otherwise keeps the whole name. |
| Naming.Stem | splitter.py:85 | `image_name`, the same expression as on line 76: a prefix of the base name, so it contains no '/'. `Naming.StemOf` states where it is cut. |
| Naming.Ext | splitter.py:86 | `image_path.split(".")[-1]`: a suffix of the whole path without '.', preceded by a '.' whenever it is shorter than the path; it is the whole path exactly when the path has no '.'. |
| Naming.OutFolderName | splitter.py:75-77 | The folder name `<stem>_tiled` is one path component: it contains no '/' and ends with `_tiled`. |
| Naming.StemAndExt | splitter.py:75-86 | For `<dir><name>.<e>`: the stem is name, the extension is e, and basename = stem + "." + extension. |
| Naming.OutFolderIgnoresExtension | splitter.py:75-77 | `<name>.<e1>` and `<name>.<e2>` in one directory get the same folder `<name>_tiled`. |
| Naming.PathJoin | splitter.py:75-77 | POSIX `os.path.join`: an absolute second part replaces the first. Otherwise the result starts with the first part and ends with the second. Nothing is added between them exactly when the first part is empty or ends in '/'; otherwise the one added character is '/'. |
| Naming.PathJoinUnique | splitter.py:75-77 | The clauses of `Naming.PathJoin` for a relative second part determine the join: any string that meets them is the join. |
| Naming.TileName | splitter.py:97 | No contract of its own: the f-string `<stem>_<top>_<left>.<ext>`. `Naming.TileNameInjective` states that it identifies the (top, left) corner and `Naming.TileNameRelative` that it never starts with '/'. |
| Naming.TileNameInjective | splitter.py:97 | For one stem and one extension, two tile names are equal if and only if the boxes share (top, left). |
| Naming.TileNameRelative | splitter.py:97 | A stem holds no '/', so a tile name never starts with '/' and the join never escapes the folder. |
| Naming.PathJoinInjective | splitter.py:97 | Joining one folder with two relative names gives equal paths if and only if the names are equal. |
| ImageFiles.CheckImageFile | splitter.py:63-68 | The loop over the allow-list returns true if and only if the name ends with one of the six extensions. |
| ImageFiles.ImageFileExt | splitter.py:86 | For an accepted path, the extension of line 86 is the matching allow-list entry without its dot. |
| ImageFiles.ImageFileExtAllowed | splitter.py:64 | Every accepted path has extension jpg, jpeg, tif, bmp, png or gif. |
| ImageFiles.CaseSensitiveMatch | splitter.py:63-68 | The match is case-sensitive and exact: `.JPG` and `.tiff` are refused, `.jpg` and `.tif` accepted. |
| Args.ParseTileSize | splitter.py:50-58 | A size string without 'x' is always refused. |
| Args.ParseTileSizeAccepts | splitter.py:50-54 | `<a>x<b>`, optionally followed by more 'x'-separated text, parses to (value a, value b). |
| Args.ParseTileSizeShape | splitter.py:50-54 | Every accepted string has the form `<a>x<b>[x…]`, and the sizes are the values of a and b. |
| Args.ParseTileSizeRoundTrip | splitter.py:50-54 | `str(w) + "x" + str(h)` parses back to (w, h). |
| Args.ParseTileSizeAcceptsZero | splitter.py:50-54 | `"0x0"` parses to (0, 0). |
| Args.ParseTileSizeIgnoresExtraFields | splitter.py:50-54 | `"64x32x3"` parses to (64, 32): fields after the second are ignored. |
| Args.ParseTileSizeRefusals | splitter.py:50-54 | `"256"` fails on the missing second field, and `"256x"` fails on an empty second field. |
| Args.ImageEntries | splitter.py:36-40 | The directory entries kept are exactly the image entries. |
| Args.ImageEntriesAppend | splitter.py:36-40 | The filter keeps listing order: the kept entries of a listing a + b are those of a followed by those of b. |
| Args.ImageEntriesSingle | splitter.py:36-40 | One entry is kept, unchanged, if and only if it is an image. |
| Args.SelectImages | splitter.py:35-44 | A directory gives its image entries joined to the directory, one file per kept entry, in listing order, and nothing else. A file gives itself if it is an image, and nothing otherwise. |
| Args.ParseArgs | splitter.py:35-60 | No images if and only if the selection is empty, and this is checked before the size. A bad size reports its cause. A zero size gives `ZeroTileSize`. A non-empty selection with positive parsed sizes is accepted as exactly that configuration, and every accepted configuration is of this kind. |
| Splitter.TilePath | splitter.py:97 | No contract of its own: the path `os.path.join(out_folder_path, <tile name>)` one tile is saved to. `Splitter.TilePathInFolder` states that it lies in the folder, and `Splitter.TilePathsDistinct` that different boxes get different paths. |
| Splitter.ExpectedTiles | splitter.py:75-98 | No contract of its own: the output of one `split_image` call built directly, the folder of lines 75-77 and then one write per box in crop order. `Splitter.TilesOfExactly` states that it is the only output meeting the description `TilesOf`, and `Splitter.SplitImage` returns it. |
| Splitter.TilesOfExactly | splitter.py:95-98 | The description of one image's output (its folder, then one write per box, in order, to the box's tile path) is met by exactly one output. |
| Splitter.SplitImage | splitter.py:71-116 | One image gives the folder `<out>/<stem>_tiled` and one write per grid box, in order, ceil·ceil writes. Each write's path lies inside that folder: it extends the folder path, and a '/' separates the two. No two writes share a path. |
| Splitter.TilesOfPaths | splitter.py:75-98 | For any output of the image's grid, every tile path lies inside the folder, below a '/', and the paths are pairwise distinct. |
| Splitter.TilePathsDistinct | splitter.py:97 | Two different boxes of one grid are saved to two different paths, so no tile overwrites another. |
| Splitter.TilePathInFolder | splitter.py:97 | For a non-empty folder, a tile path extends the folder path, and either the folder ends in '/' or a '/' follows it. |
| Splitter.SplitAll | splitter.py:119-122 | `main` splits every selected image, in order, with the one tile size. Result i is the split of file i. |
| Text.EndsWith | splitter.py:66 | No contract of its own: `str.endswith`. `ImageFiles.CheckImageFile` states that the allow-list loop returns true exactly when one of these tests holds. |
| Text.LastIndex | splitter.py:85 | `str.rfind`, which `os.path.splitext` uses to find the last dot: the index of the last occurrence of the character, or −1 when it does not occur. |
| Text.Split | splitter.py:50 | `str.split(c)`: at least one field, no field contains c, joining the fields gives back the string, and there is one field if and only if c does not occur. |
| Text.SplitJoin | splitter.py:50 | Splitting the join of c-free fields gives back the fields. |
| Text.AfterLast | splitter.py:86 | `split(c)[-1]` is a suffix without c, and it follows a c whenever it is shorter than the string. |
| Decimal.Value | splitter.py:53-54 | No contract of its own: what `int()` gives for a run of ASCII digits. `Decimal.Show` states that it reads every rendering back, and `Decimal.ShowValue` that a numeral without a leading zero is the rendering of its value. |
| Decimal.Show | splitter.py:97 | The rendering of n in the f-string is a digit string with no leading zero, and it reads back to n. |
| Decimal.ShowInjective | splitter.py:97 | Different numbers render differently. |
| Decimal.ShowValue | splitter.py:53-54 | A numeral without a leading zero is the rendering of its own value, so with `Decimal.Show` rendering and reading are inverse. |

## Left out

- Pixels are not modelled: `Image.open`, `crop` and `save` (lines 83-84, 95-98) and the `MAX_IMAGE_PIXELS` setting (line 19). A crop becomes a `TileWrite` record. The image size PIL reads is a parameter.
- Filesystem effects are not modelled: `exists`/`mkdir` of the output root and the folder (lines 72-73, 78-81) and the `rmtree` of an old folder. Only the folder's path is modelled. `isdir` and `listdir` (lines 35, 38) are parameters, and the listing order is the order of the given sequence.
- Argument syntax is not modelled: argparse (lines 22-33), the usage message and `print` (line 47). The exit at line 48 becomes `Err(NoImages)`.
- Exceptions are not modelled: ones raised by PIL or the filesystem while an image is processed. The source does not catch them either.
- The `else` branch of lines 56-58 is not modelled, because `str.split` always returns a list and the branch is unreachable.
- Args.ParseTileSize: accepts only ASCII digit runs. Python's `int()` also accepts a sign, surrounding whitespace, underscores between digits and other Unicode digits. A negative size such as `"-5x3"` is refused here, but the source accepts it and then runs its loop with a negative step.
- Splitter.SplitImage: uses the corrected planner, so oversize tiles give one whole-image tile. The as-written crops for such inputs are stated only by Planner.OversizeTileInvertsBox, Planner.OversizeHeightInvertsRow and Planner.OversizeWidthInvertsColumn, and the outcome of cropping an inverted box in PIL is not modelled.
- Planner.PlanTilesAsWritten: requires the tile to fit in the image. Outside that range the as-written loop is stated only for particular inputs: a tile larger than the image in both dimensions (`Planner.OversizeTileInvertsBox`), a tile taller than the image only (`Planner.OversizeHeightInvertsRow`), a tile wider than the image only (`Planner.OversizeWidthInvertsColumn`), a zero tile width (`Planner.ZeroTileNeverAdvances`) and a zero tile height (`Planner.ZeroHeightNeverExits`, `Planner.ZeroHeightCycles`). No general statement covers the as-written loop on other oversize inputs.
- PIL's handling of an empty box (zero width or height) or an inverted box is not modelled. The two findings below are statements about the cursors, not about the files PIL writes or the exceptions it raises.

## Findings

| source | as written | input that shows it | evidently intended | confidence | as-written member | corrected member |
|---|---|---|---|---|---|---|
| splitter.py:101-116 | The cursors move a full tile step and only the far edge is clipped to the image. Nothing checks that the tile fits, so the next left edge can pass the right edge. | A 100×100 image with `--t_size 128x128`: the cursors visit (0,0,128,128), then (128,0,100,128) with left > right, then (0,128,128,100) and (128,128,100,100). Each of these boxes is passed to `crop`. What PIL does with the inverted box is not modelled; it may raise at the second crop. | One tile covering the whole image, (0,0,100,100). | high; not executed | Planner.OversizeTileInvertsBox | Planner.PlanTiles |
| splitter.py:50-54 | `int()` accepts 0, and nothing rejects a zero tile size before the loop. | `--t_size 0x64` on any image: the cursors start at (0,0,0,64), that box fails the exit test, and `Advance` returns it unchanged, so the cursors never advance and the loop of lines 94-116 has no exit. `--t_size 64x0` instead makes the cursors cycle through row 0 (`Planner.ZeroHeightCycles`). What PIL does with the empty box (0,0,0,64) is not modelled; it may raise at the first save. | Refuse a zero tile size, like a malformed one. | high; not executed | Planner.ZeroTileNeverAdvances | Args.ParseArgs |
