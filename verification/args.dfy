/**
 * `parse_args` without argparse: which files are selected (lines 35-48) and
 * how the `--t_size` string becomes two tile sizes (lines 50-58).  The
 * filesystem answers (`isdir`, `listdir`) are parameters.
 */
module Args {
  import opened Text
  import opened Decimal
  import opened Naming
  import opened ImageFiles

  datatype Result<T, E> = Ok(value: T) | Err(error: E)

  /** Why a tile-size string is refused. */
  datatype SizeError =
    | NotAnInteger(field: string)  // `int()` raises ValueError (lines 53-54)
    | MissingHeight                // `tile_size[1]` raises IndexError (line 54)

  /**
   * Lines 50-54: split on 'x', read field 0, then field 1, as decimal
   * integers; later fields are ignored and zero is accepted.  The branch of
   * lines 56-58 is unreachable because `split` always returns a list.
   */
  function ParseTileSize(tSize: string): (r: Result<(nat, nat), SizeError>)
    ensures 'x' !in tSize ==> r.Err?
  {
    var fields := Split(tSize, 'x');
    if !IsNumeral(fields[0]) then Err(NotAnInteger(fields[0]))
    else if |fields| < 2 then Err(MissingHeight)
    else if !IsNumeral(fields[1]) then Err(NotAnInteger(fields[1]))
    else Ok((Value(fields[0]), Value(fields[1])))
  }

  /**
   * Every string of the form `<a>x<b>` followed by nothing or by further
   * 'x'-separated text parses to the values of a and b.
   */
  lemma {:induction false} ParseTileSizeAccepts(a: string, b: string, rest: string)
    requires IsNumeral(a) && IsNumeral(b)
    requires |rest| == 0 || rest[0] == 'x'
    ensures ParseTileSize(a + "x" + b + rest) == Ok((Value(a), Value(b)))
  {
    var t := b + rest;
    assert a + "x" + b + rest == a + ['x'] + t;
    SplitFirstTwo(a, b, rest);
    ParseOfFields(a + ['x'] + t, a, b);
  }

  /** The first two 'x'-separated fields of `<a>x<b><rest>` are a and b. */
  lemma {:induction false} SplitFirstTwo(a: string, b: string, rest: string)
    requires IsNumeral(a) && IsNumeral(b)
    requires |rest| == 0 || rest[0] == 'x'
    ensures var fields := Split(a + ['x'] + (b + rest), 'x'); |fields| >= 2 && fields[0] == a && fields[1] == b
  {
    DigitsExclude(a, 'x');
    DigitsExclude(b, 'x');
    SplitCons(a, 'x', b + rest);
    SplitHead(b, rest);
  }

  /** The first field of `<b><rest>`, with b free of 'x' and rest empty or starting with 'x', is b. */
  lemma {:induction false} SplitHead(b: string, rest: string)
    requires 'x' !in b
    requires |rest| == 0 || rest[0] == 'x'
    ensures Split(b + rest, 'x')[0] == b
  {
    if |rest| == 0 {
      assert b + rest == b;
      SplitSingle(b, 'x');
    } else {
      assert b + rest == b + ['x'] + rest[1..];
      SplitCons(b, 'x', rest[1..]);
    }
  }

  /** A string whose first two fields are numerals parses to their values. */
  lemma {:induction false} ParseOfFields(s: string, a: string, b: string)
    requires IsNumeral(a) && IsNumeral(b)
    requires |Split(s, 'x')| >= 2 && Split(s, 'x')[0] == a && Split(s, 'x')[1] == b
    ensures ParseTileSize(s) == Ok((Value(a), Value(b)))
  {
  }

  /**
   * Conversely every accepted string has that form, and the sizes are the
   * values of its first two fields.
   */
  lemma {:induction false} ParseTileSizeShape(tSize: string) returns (a: string, b: string, rest: string)
    requires ParseTileSize(tSize).Ok?
    ensures tSize == a + "x" + b + rest
    ensures IsNumeral(a) && IsNumeral(b) && (|rest| == 0 || rest[0] == 'x')
    ensures ParseTileSize(tSize).value == (Value(a), Value(b))
  {
    var fields := Split(tSize, 'x');
    a, b := fields[0], fields[1];
    rest := if |fields| == 2 then "" else "x" + JoinWith(fields[2..], 'x');
    assert fields[1..][1..] == fields[2..];
    assert JoinWith(fields[1..], 'x') == b + rest;
  }

  /** A size written by `str` round-trips: `"<w>x<h>"` parses to (w, h). */
  lemma {:induction false} ParseTileSizeRoundTrip(w: nat, h: nat)
    ensures ParseTileSize(Show(w) + "x" + Show(h)) == Ok((w, h))
  {
    ParseTileSizeAccepts(Show(w), Show(h), "");
    assert Show(w) + "x" + Show(h) + "" == Show(w) + "x" + Show(h);
  }

  /** Zero is not refused by the parse: `"0x0"` gives (0, 0). */
  lemma ParseTileSizeAcceptsZero()
    ensures ParseTileSize("0x0") == Ok((0, 0))
  {
  }

  /** A third field is ignored: `"64x32x3"` gives (64, 32). */
  lemma ParseTileSizeIgnoresExtraFields()
    ensures ParseTileSize("64x32x3") == Ok((64, 32))
  {
    ValueTwoDigits("64");
    ValueTwoDigits("32");
    ParseTileSizeAccepts("64", "32", "x3");
    assert "64" + "x" == "64x";
    assert "64x" + "32" == "64x32";
    assert "64x32" + "x3" == "64x32x3";
  }

  /** A bare integer fails on the missing second field; an empty second field is not an integer. */
  lemma ParseTileSizeRefusals()
    ensures ParseTileSize("256") == Err(MissingHeight)
    ensures ParseTileSize("256x") == Err(NotAnInteger(""))
  {
    assert IsNumeral("256");
    assert 'x' !in "256";
    SplitSingle("256", 'x');
    assert "256x" == "256" + ['x'] + "";
    SplitCons("256", 'x', "");
    assert Split("", 'x') == [""];
  }

  /** The entries of a directory listing that line 39 keeps, in listing order. */
  function ImageEntries(entries: seq<string>): (kept: seq<string>)
    ensures forall e :: e in kept <==> e in entries && IsImageFile(e)
    ensures |kept| <= |entries|
  {
    if |entries| == 0 then []
    else (if IsImageFile(entries[0]) then [entries[0]] else []) + ImageEntries(entries[1..])
  }

  /**
   * The filter keeps listing order: the kept entries of a listing split in
   * two are those of the first part followed by those of the second.
   */
  lemma {:induction false} ImageEntriesAppend(a: seq<string>, b: seq<string>)
    ensures ImageEntries(a + b) == ImageEntries(a) + ImageEntries(b)
    decreases |a|
  {
    if |a| == 0 {
      assert a + b == b;
    } else {
      var head := if IsImageFile(a[0]) then [a[0]] else [];
      assert (a + b)[0] == a[0] && (a + b)[1..] == a[1..] + b;
      assert ImageEntries(a + b) == head + ImageEntries(a[1..] + b);
      assert ImageEntries(a) == head + ImageEntries(a[1..]);
      ImageEntriesAppend(a[1..], b);
    }
  }

  /** A single entry is kept, unchanged, exactly when it is an image. */
  lemma {:induction false} ImageEntriesSingle(e: string)
    ensures ImageEntries([e]) == if IsImageFile(e) then [e] else []
  {
    assert [e][1..] == [];
  }

  /**
   * Lines 35-44: a directory contributes each image entry joined to it; any
   * other path contributes itself when it is an image, and nothing otherwise.
   */
  function SelectImages(path: string, isDir: bool, entries: seq<string>): (files: seq<string>)
    ensures isDir ==> forall e :: e in entries && IsImageFile(e) ==> PathJoin(path, e) in files
    ensures isDir ==> forall f :: f in files ==> exists e :: e in entries && IsImageFile(e) && f == PathJoin(path, e)
    ensures isDir ==> |files| == |ImageEntries(entries)|
    ensures isDir ==> forall i :: 0 <= i < |files| ==> files[i] == PathJoin(path, ImageEntries(entries)[i])
    ensures !isDir ==> (IsImageFile(path) ==> files == [path]) && (!IsImageFile(path) ==> files == [])
  {
    if isDir then
      var kept := ImageEntries(entries);
      var files := seq(|kept|, i requires 0 <= i < |kept| => PathJoin(path, kept[i]));
      assert forall e :: e in kept ==> PathJoin(path, e) in files by {
        forall e | e in kept
          ensures PathJoin(path, e) in files
        {
          var i :| 0 <= i < |kept| && kept[i] == e;
          assert files[i] == PathJoin(path, e);
        }
      }
      files
    else if IsImageFile(path) then [path]
    else []
  }

  /** The validated command line. */
  datatype Config = Config(files: seq<string>, tileX: nat, tileY: nat, outPath: string)

  datatype ArgError =
    | NoImages                     // lines 46-48: message and exit before the size is read
    | BadTileSize(cause: SizeError)
    | ZeroTileSize                 // the correction: a zero size would never advance the loop

  /**
   * `parse_args` (lines 35-60) with zero tile sizes refused: an empty
   * selection stops before the size is looked at, a malformed size is
   * reported, and an accepted configuration has images and positive tiles.
   */
  function ParseArgs(path: string, isDir: bool, entries: seq<string>, tSize: string, outPath: string)
    : (r: Result<Config, ArgError>)
    ensures r == Err(NoImages) <==> SelectImages(path, isDir, entries) == []
    ensures r.Ok? ==> && r.value.files == SelectImages(path, isDir, entries) && |r.value.files| > 0
                      && r.value.tileX > 0 && r.value.tileY > 0 && r.value.outPath == outPath
                      && ParseTileSize(tSize) == Ok((r.value.tileX, r.value.tileY))
    ensures SelectImages(path, isDir, entries) != [] && ParseTileSize(tSize).Err? ==>
              r == Err(BadTileSize(ParseTileSize(tSize).error))
    ensures SelectImages(path, isDir, entries) != [] && ParseTileSize(tSize).Ok? &&
            (ParseTileSize(tSize).value.0 == 0 || ParseTileSize(tSize).value.1 == 0) ==>
              r == Err(ZeroTileSize)
    ensures SelectImages(path, isDir, entries) != [] && ParseTileSize(tSize).Ok? &&
            ParseTileSize(tSize).value.0 > 0 && ParseTileSize(tSize).value.1 > 0 ==>
              r == Ok(Config(SelectImages(path, isDir, entries), ParseTileSize(tSize).value.0,
                             ParseTileSize(tSize).value.1, outPath))
  {
    var files := SelectImages(path, isDir, entries);
    if files == [] then Err(NoImages)
    else
      match ParseTileSize(tSize)
      case Err(e) => Err(BadTileSize(e))
      case Ok((x, y)) =>
        if x == 0 || y == 0 then Err(ZeroTileSize) else Ok(Config(files, x, y, outPath))
  }
}
