/** albumBlurhash: the Jellyfin image descriptor of the cover found in a
    directory, `canonicalPath*ticks*Primary*width*height*blurhash`. */
module Cover {
  import opened Wrappers
  import opened Strings
  import opened Numbers
  import opened Paths
  import opened Files

  /** The most blurhash components along one side of the image. */
  const BLURHASH_MAXSIZE := 5

  /** blurhash::encode applied to an image and a component grid (x, y). */
  type Encoder = (Bitmap, int, int) -> string

  /** The component grid: five components along the longer side, and along
      the shorter side five divided by the integer aspect ratio. */
  function Grid(width: Dim, height: Dim): (g: (int, int))
    ensures 0 <= g.0 <= BLURHASH_MAXSIZE && 0 <= g.1 <= BLURHASH_MAXSIZE
    ensures width >= height ==> g.0 == BLURHASH_MAXSIZE
    ensures width <= height ==> g.1 == BLURHASH_MAXSIZE
  {
    if width == height then (BLURHASH_MAXSIZE, BLURHASH_MAXSIZE)
    else if width > height then
      var ratio := width / height;
      (BLURHASH_MAXSIZE, BLURHASH_MAXSIZE / ratio)
    else
      var ratio := height / width;
      (BLURHASH_MAXSIZE / ratio, BLURHASH_MAXSIZE)
  }

  /** The shorter side gets the largest count whose product with the integer
      aspect ratio stays within five. */
  lemma GridShortSide(width: Dim, height: Dim)
    ensures width > height ==>
      var ratio := width / height;
      var y := Grid(width, height).1;
      ratio >= 1 && y * ratio <= BLURHASH_MAXSIZE < (y + 1) * ratio
    ensures width < height ==>
      var ratio := height / width;
      var x := Grid(width, height).0;
      ratio >= 1 && x * ratio <= BLURHASH_MAXSIZE < (x + 1) * ratio
  {
    if width > height {
      var ratio := width / height;
      assert ratio >= 1;
      var y := BLURHASH_MAXSIZE / ratio;
      assert BLURHASH_MAXSIZE == y * ratio + BLURHASH_MAXSIZE % ratio;
    } else if width < height {
      var ratio := height / width;
      assert ratio >= 1;
      var x := BLURHASH_MAXSIZE / ratio;
      assert BLURHASH_MAXSIZE == x * ratio + BLURHASH_MAXSIZE % ratio;
    }
  }

  /** Turning the image on its side swaps the grid. */
  lemma GridTranspose(width: Dim, height: Dim)
    ensures Grid(height, width) == (Grid(width, height).1, Grid(width, height).0)
  {
  }

  /** An image six or more times wider than high gets no components across
      its height (and symmetrically). */
  lemma GridDegenerate(width: Dim, height: Dim)
    ensures width >= 6 * height ==> Grid(width, height).1 == 0
    ensures height >= 6 * width ==> Grid(width, height).0 == 0
  {
    if width >= 6 * height {
      assert width / height >= 6 by {
        assert width == (width / height) * height + width % height;
      }
    }
    if height >= 6 * width {
      assert height / width >= 6 by {
        assert height == (height / width) * width + height % width;
      }
    }
  }

  /** .NET ticks (100 ns since 0001-01-01) at the Unix epoch. */
  const UNIX_EPOCH_TICKS := 621355968000000000
  /** What the program adds to the scaled modification time. */
  const TICKS_OFFSET := 621355968000009999
  const TICKS_PER_MS := 10000

  /** The modification time in ticks, as the descriptor records it. */
  function Ticks(ms: int): (t: int)
    ensures t == UNIX_EPOCH_TICKS + ms * TICKS_PER_MS + 9999
    ensures t % TICKS_PER_MS == 9999
    ensures (t - TICKS_OFFSET) / TICKS_PER_MS == ms
  {
    ms * TICKS_PER_MS + TICKS_OFFSET
  }

  /** Later files get larger tick values. */
  lemma TicksOrder(a: int, b: int)
    ensures a < b <==> Ticks(a) < Ticks(b)
  {
  }

  lemma NoStarInNumber(i: int)
    ensures '*' !in IntToString(i)
  {
    if i < 0 {
      var digits := NatToString(-i);
      assert IntToString(i) == "-" + digits;
      assert forall k :: 0 <= k < |digits| ==> digits[k] != '*';
    } else {
      var digits := NatToString(i);
      assert forall k :: 0 <= k < |digits| ==> digits[k] != '*';
    }
  }

  /** The descriptor string, fields joined with '*'. */
  function Descriptor(image: Path, ticks: int, width: int, height: int, hash: string): string
  {
    Render(image) + "*" + IntToString(ticks) + "*Primary*" + IntToString(width) + "*"
      + IntToString(height) + "*" + hash
  }

  /** The descriptor's concatenation, regrouped from the right. */
  lemma Regrouped(p: string, t: string, w: string, h: string, hash: string)
    ensures p + "*" + t + "*Primary*" + w + "*" + h + "*" + hash
      == p + "*" + (t + "*" + ("Primary" + "*" + (w + "*" + (h + "*" + hash))))
  {
    var tail := w + "*" + (h + "*" + hash);
    assert "*Primary*" == "*" + "Primary" + "*";
    assert p + "*" + t + "*Primary*" + w + "*" + h + "*" + hash == p + "*" + t + "*Primary*" + tail;
    assert t + "*Primary*" + tail == t + "*" + ("Primary" + "*" + tail);
  }

  /** `a*b` splits into `a` and the parts of `b` when `a` has no '*'. */
  lemma SplitAtStar(a: string, b: string)
    requires '*' !in a
    ensures Split(a + "*" + b, "*") == [a] + Split(b, "*")
  {
    NoCharNoOccurrence(a, '*');
    assert "*"[..0] == [];
    assert a + "*"[..0] == a;
    SplitAfter(a, "*", b);
  }

  lemma SplitFields(p: string, t: string, w: string, h: string, hash: string)
    requires '*' !in p && '*' !in t && '*' !in w && '*' !in h
    ensures Split(p + "*" + t + "*Primary*" + w + "*" + h + "*" + hash, "*")
      == [p, t, "Primary", w, h] + Split(hash, "*")
  {
    Regrouped(p, t, w, h, hash);
    var x4 := h + "*" + hash;
    var x3 := w + "*" + x4;
    var x2 := "Primary" + "*" + x3;
    var x1 := t + "*" + x2;
    SplitAtStar(h, hash);
    SplitAtStar(w, x4);
    SplitAtStar("Primary", x3);
    SplitAtStar(t, x2);
    SplitAtStar(p, x1);
    FiveFirst(p, t, "Primary", w, h, Split(hash, "*"));
  }

  /** Five single fields in front of the rest, as one display. */
  lemma FiveFirst(a: string, b: string, c: string, d: string, e: string, rest: seq<string>)
    ensures [a] + ([b] + ([c] + ([d] + ([e] + rest)))) == [a, b, c, d, e] + rest
  {
  }

  lemma DescriptorSplit(image: Path, ticks: int, width: int, height: int, hash: string)
    requires '*' !in Render(image)
    ensures Split(Descriptor(image, ticks, width, height, hash), "*")
      == [Render(image), IntToString(ticks), "Primary", IntToString(width), IntToString(height)] + Split(hash, "*")
  {
    NoStarInNumber(ticks);
    NoStarInNumber(width);
    NoStarInNumber(height);
    SplitFields(Render(image), IntToString(ticks), IntToString(width), IntToString(height), hash);
  }

  /** Splitting a descriptor on '*' gives back its fields: the path, the tick
      count, "Primary", the width and the height, and then the hash. */
  lemma DescriptorFields(image: Path, ticks: int, width: int, height: int, hash: string)
    requires '*' !in Render(image)
    ensures var fields := Split(Descriptor(image, ticks, width, height, hash), "*");
      |fields| >= 6 && fields[0] == Render(image) && ParseDecimal(fields[1]) == Some(ticks)
      && fields[2] == "Primary" && ParseDecimal(fields[3]) == Some(width)
      && ParseDecimal(fields[4]) == Some(height) && Join(fields[5..], "*") == hash
  {
    DescriptorSplit(image, ticks, width, height, hash);
    var head := [Render(image), IntToString(ticks), "Primary", IntToString(width), IntToString(height)];
    var fields := head + Split(hash, "*");
    assert fields[0] == head[0] && fields[1] == head[1] && fields[2] == head[2];
    assert fields[3] == head[3] && fields[4] == head[4];
    assert fields[5..] == Split(hash, "*");
    JoinSplit(hash, "*");
    ParseIntToString(ticks);
    ParseIntToString(width);
    ParseIntToString(height);
  }

  /** Whether the entry `name` of `dir` is taken for the cover: the full path
      of the entry contains the configured image name. */
  predicate IsCover(dir: Path, name: string, imageName: string)
  {
    Contains(Render(Child(dir, name)), imageName)
  }

  /** The first entry of the listing taken for the cover. */
  function FirstCover(dir: Path, names: seq<string>, imageName: string): (r: Option<nat>)
    ensures r.Some? ==> r.value < |names| && IsCover(dir, names[r.value], imageName)
    ensures forall j :: 0 <= j < |names| && (r.None? || j < r.value) ==> !IsCover(dir, names[j], imageName)
    decreases |names|
  {
    if names == [] then None
    else if IsCover(dir, names[0], imageName) then Some(0)
    else
      match FirstCover(dir, names[1..], imageName)
      case None => None
      case Some(k) => Some(k + 1)
  }

  /** The descriptor albumBlurhash returns for `dir`: empty when no entry is
      taken for the cover, when the cover cannot be decoded or when it is not
      a three-channel image; an exception when the directory cannot be listed
      or the cover has no canonical form. The hash is taken over the image as
      decoded, at its own size. */
  function CoverDescriptor(fs: FileSystem, encode: Encoder, imageName: string, dir: Path): Result<string>
  {
    var names :- Entries(fs, dir);
    match FirstCover(dir, names, imageName)
    case None => Ok("")
    case Some(i) =>
      var image := Child(dir, names[i]);
      match fs.load(image)
      case None => Ok("")
      case Some(bitmap) =>
        if bitmap.channels != 3 then Ok("")
        else
          var grid := Grid(bitmap.width, bitmap.height);
          var hash := encode(bitmap, grid.0, grid.1);
          var canonical :- Canonical(fs, image);
          Ok(Descriptor(canonical, Ticks(fs.lastModifiedMs(image)), bitmap.width, bitmap.height, hash))
  }

  /** A descriptor is never empty, and starts with the image path and a '*'. */
  lemma DescriptorStarts(image: Path, ticks: int, width: int, height: int, hash: string)
    ensures var d := Descriptor(image, ticks, width, height, hash);
      d != "" && StartsWith(d, Render(image) + "*")
  {
    var prefix := Render(image) + "*";
    assert prefix[..|prefix|] == prefix;
    var x1 := prefix + IntToString(ticks);
    StartsWithAppend(prefix, prefix, IntToString(ticks));
    var x2 := x1 + "*Primary*";
    StartsWithAppend(x1, prefix, "*Primary*");
    var x3 := x2 + IntToString(width);
    StartsWithAppend(x2, prefix, IntToString(width));
    var x4 := x3 + "*";
    StartsWithAppend(x3, prefix, "*");
    var x5 := x4 + IntToString(height);
    StartsWithAppend(x4, prefix, IntToString(height));
    var x6 := x5 + "*";
    StartsWithAppend(x5, prefix, "*");
    StartsWithAppend(x6, prefix, hash);
  }

  /** The descriptor is empty exactly when no cover is found, the cover does
      not decode, or it does not have three channels; otherwise it names the
      canonical path of the cover first. */
  lemma CoverDescriptorEmpty(fs: FileSystem, encode: Encoder, imageName: string, dir: Path)
    requires CoverDescriptor(fs, encode, imageName, dir).Ok?
    ensures var names := fs.listing(dir).value;
      var found := FirstCover(dir, names, imageName);
      var d := CoverDescriptor(fs, encode, imageName, dir).value;
      (d == "" <==>
        found.None? || fs.load(Child(dir, names[found.value])).None?
        || fs.load(Child(dir, names[found.value])).value.channels != 3)
      && (d != "" ==> StartsWith(d, Render(fs.canonical(Child(dir, names[found.value]))) + "*"))
  {
    var names := fs.listing(dir).value;
    var found := FirstCover(dir, names, imageName);
    if found.Some? {
      var image := Child(dir, names[found.value]);
      if fs.load(image).Some? && fs.load(image).value.channels == 3 {
        var bitmap := fs.load(image).value;
        var grid := Grid(bitmap.width, bitmap.height);
        var d := Descriptor(fs.canonical(image), Ticks(fs.lastModifiedMs(image)), bitmap.width, bitmap.height,
          encode(bitmap, grid.0, grid.1));
        assert CoverDescriptor(fs, encode, imageName, dir) == Ok(d);
        DescriptorStarts(fs.canonical(image), Ticks(fs.lastModifiedMs(image)), bitmap.width, bitmap.height,
          encode(bitmap, grid.0, grid.1));
      }
    }
  }
}
