// share.php, server side: the set-up of the thumbnails directory, the filter
// that turns the listing of `shares` into the gallery's image list, and the
// loop that writes a 300-pixel-wide thumbnail for every image that has none.
// The GD library (probing, decoding, resampling, encoding) is an input, and
// so is the listing `scandir` returns.

module ShareListing {
  import opened Support
  import opened FileStore

  const SharesDir: Path := "shares"
  const ThumbDir: Path := "shares/thumbnails"

  /** Every thumbnail is this wide, whatever the width of its source. */
  const ThumbWidth: nat := 300

  /** The extensions the gallery shows, compared after lower-casing. */
  const ImageExtensions: seq<string> := ["jpg", "jpeg", "png", "gif"]

  const GdMissingWarning: string :=
    "PHP GD extension is not enabled. Thumbnail generation is disabled."
  const ThumbDirWarning: string :=
    "Failed to create the thumbnails directory. Please check permissions for \"shares\"."

  // ---------------------------------------------------------------------------
  // Set-up

  /** What the set-up leaves behind: the world, whether thumbnails will be
      generated (`$gd_loaded` after the set-up) and the warning to show. */
  datatype Setup = Setup(world: World, thumbnails: bool, warning: string)

  /** Without GD nothing happens; with GD a missing thumbnails directory is
      created with its parents, and if that fails thumbnails are switched off. */
  function SetupOutcome(w: World, gdLoaded: bool, mkdirFails: bool): Setup
  {
    if !gdLoaded then Setup(w, false, GdMissingWarning)
    else if ThumbDir in w.dirs then Setup(w, true, "")
    else
      var (w', ok) := AfterMkdir(w, ThumbDir, mkdirFails);
      if ok then Setup(w', true, "") else Setup(w, false, ThumbDirWarning)
  }

  /** `shares` is the only ancestor of the thumbnails directory, so a recursive
      mkdir of it fails exactly when `shares` is a regular file. */
  lemma ThumbDirAncestry(w: World)
    ensures Ancestors(ThumbDir) == {SharesDir}
    ensures UnderFile(w, ThumbDir) <==> SharesDir in w.files
  {
    assert ThumbDir[6] == '/' && ThumbDir[..6] == SharesDir;
    forall i | 0 < i < |ThumbDir| && ThumbDir[i] == '/'
      ensures i == 6
    {
    }
  }

  /** Thumbnails are generated exactly when GD is there and the thumbnails
      directory is a directory or could be made one (it is free and `shares`
      is not a regular file); then `shares` is a directory too and
      no warning is shown. Otherwise the world is untouched and the warning
      says why. */
  lemma SetupDecidesThumbnails(w: World, gdLoaded: bool, mkdirFails: bool)
    ensures var s := SetupOutcome(w, gdLoaded, mkdirFails);
      (s.thumbnails <==> gdLoaded && (ThumbDir in w.dirs ||
                                      (!mkdirFails && !w.Exists(ThumbDir) && SharesDir !in w.files))) &&
      (s.thumbnails ==> s.warning == "" && ThumbDir in s.world.dirs && s.world.files == w.files &&
                        (ThumbDir !in w.dirs ==> SharesDir in s.world.dirs)) &&
      (!s.thumbnails ==> s.world == w &&
                         s.warning == (if gdLoaded then ThumbDirWarning else GdMissingWarning))
  {
    ThumbDirAncestry(w);
  }

  /** The set-up creates no directory but the thumbnails directory and its parents. */
  lemma SetupCreatesOnlyThumbDir(w: World, gdLoaded: bool, mkdirFails: bool)
    ensures var s := SetupOutcome(w, gdLoaded, mkdirFails);
      w.dirs <= s.world.dirs <= w.dirs + {ThumbDir} + Ancestors(ThumbDir)
  {
  }

  // ---------------------------------------------------------------------------
  // Listing filter

  /** `pathinfo($file, PATHINFO_EXTENSION)`: the text after the last `.`, or
      empty when there is none (a leading dot counts, so `.png` has `png`). */
  function Extension(name: string): string
  {
    var i := LastIndexOf(name, '.');
    if i < 0 then "" else name[i + 1..]
  }

  /** The extension is exactly what follows the last dot ... */
  lemma ExtensionOfJoin(base: string, ext: string)
    requires forall j :: 0 <= j < |ext| ==> ext[j] != '.'
    ensures Extension(base + "." + ext) == ext
  {
    var s := base + "." + ext;
    LastIndexOfAt(s, '.', |base|);
    assert s[|base| + 1..] == ext;
  }

  /** ... and a name without a dot has none. */
  lemma ExtensionWithoutDot(name: string)
    requires forall j :: 0 <= j < |name| ==> name[j] != '.'
    ensures Extension(name) == ""
  {
  }

  /** The array_filter callback: not `.` or `..`, not a directory inside
      `shares`, and an image extension in any case. */
  predicate IsListed(w: World, file: string)
  {
    file != "." && file != ".." && SharesDir + "/" + file !in w.dirs &&
    Lower(Extension(file)) in ImageExtensions
  }

  /** `array_values(array_filter(...))`: the entries that pass, re-indexed from 0. */
  function FilterImages(w: World, entries: seq<string>): (r: seq<string>)
    ensures forall f :: f in r <==> f in entries && IsListed(w, f)
    ensures |r| <= |entries|
  {
    if entries == [] then []
    else (if IsListed(w, entries[0]) then [entries[0]] else []) + FilterImages(w, entries[1..])
  }

  /** The filter keeps the scan order: filtering a concatenation filters each part. */
  lemma {:induction false} FilterAppend(w: World, a: seq<string>, b: seq<string>)
    ensures FilterImages(w, a + b) == FilterImages(w, a) + FilterImages(w, b)
    decreases |a|
  {
    if a == [] {
      assert a + b == b;
    } else {
      assert (a + b)[0] == a[0];
      assert (a + b)[1..] == a[1..] + b;
      FilterAppend(w, a[1..], b);
    }
  }

  /** A listing of images only comes back whole, in order. */
  lemma {:induction false} FilterKeepsImageListing(w: World, entries: seq<string>)
    requires forall i :: 0 <= i < |entries| ==> IsListed(w, entries[i])
    ensures FilterImages(w, entries) == entries
    decreases |entries|
  {
    if entries != [] {
      FilterKeepsImageListing(w, entries[1..]);
    }
  }

  /** Names as the gallery sees them: case does not matter and only the last
      extension does. */
  lemma UpperCaseImageListed()
    ensures Lower(Extension("photo.JPG")) in ImageExtensions
  {
    ExtensionOfJoin("photo", "JPG");
    assert "photo" + "." + "JPG" == "photo.JPG";
    assert Lower("JPG") == "jpg";
  }

  lemma InnerExtensionIgnored()
    ensures Lower(Extension("archive.png.zip")) !in ImageExtensions
  {
    ExtensionOfJoin("archive.png", "zip");
    assert "archive.png" + "." + "zip" == "archive.png.zip";
    assert Lower("zip") == "zip";
  }

  /** A hidden `.png` is an image; a name without a dot is not. */
  lemma HiddenImageListed()
    ensures Lower(Extension(".png")) in ImageExtensions
  {
    ExtensionOfJoin("", "png");
    assert "" + "." + "png" == ".png";
    assert Lower("png") == "png";
  }

  lemma NameWithoutDotNotListed()
    ensures Lower(Extension("README")) !in ImageExtensions
  {
    ExtensionWithoutDot("README");
  }

  /** `scandir` runs only when `shares` is a directory; otherwise the list is empty. */
  function ListImages(w: World, entries: seq<string>): seq<string>
  {
    if SharesDir in w.dirs then FilterImages(w, entries) else []
  }

  lemma ListImagesShowsOnlyImages(w: World, entries: seq<string>, f: string)
    ensures f in ListImages(w, entries) <==>
            SharesDir in w.dirs && f in entries && IsListed(w, f)
  {
  }

  // ---------------------------------------------------------------------------
  // Thumbnail planning

  type Positive = n: int | n >= 1 witness 1

  /** The `IMAGETYPE_*` constant `getimagesize` reports. */
  datatype ImageType = Jpeg | Png | Gif | OtherType(code: int)

  /** What `getimagesize` reads from a file: width, height and type. */
  datatype ImageInfo = ImageInfo(width: Positive, height: nat, imageType: ImageType)

  /** How a thumbnail is saved: `imagejpeg` at a quality, or `imagepng` /
      `imagegif` with the alpha channel kept. */
  datatype Encoding = JpegAtQuality(quality: nat) | PngWithAlpha | GifWithAlpha

  /** The GD library. `probe` is `getimagesize`; `render(e, src, w, h)` decodes
      `src` with the decoder for `e`'s format, resamples it to `w` by `h` and
      encodes it with `e`, and is `None` when the decoder fails. */
  datatype Gd = Gd(probe: Bytes -> Option<ImageInfo>,
                   render: (Encoding, Bytes, nat, nat) -> Option<Bytes>)

  /** The thumbnail the script decides to write. */
  datatype Thumbnail = Thumbnail(encoding: Encoding, width: nat, height: nat, image: Bytes)

  /** The height that keeps the aspect ratio at width 300, never below 1. */
  function ThumbHeight(width: Positive, height: nat): (r: nat)
    ensures r >= 1
  {
    var h := height * ThumbWidth / width;
    if h < 1 then 1 else h
  }

  /** The height is the source's aspect ratio at width 300, rounded down, and
      1 for a source more than 300 times wider than high. */
  lemma ThumbHeightKeepsAspect(width: Positive, height: nat)
    ensures var r := ThumbHeight(width, height);
      (height * ThumbWidth < width ==> r == 1) &&
      (height * ThumbWidth >= width ==> r * width <= height * ThumbWidth < (r + 1) * width)
  {
    var n := height * ThumbWidth;
    assert n == n / width * width + n % width;
  }

  /** A source narrower than 300 is scaled up: its thumbnail is at least as high. */
  lemma NarrowSourceScaledUp(width: Positive, height: nat)
    requires width <= ThumbWidth
    ensures ThumbHeight(width, height) >= height
  {
    var n := height * ThumbWidth;
    assert n >= height * width by {
      assert height * (ThumbWidth - width) >= 0;
    }
    var q := n / width;
    assert n == q * width + n % width;
    MulCancel(q + 1, height, width);
  }

  lemma MulCancel(a: int, b: int, c: Positive)
    requires a * c > b * c
    ensures a > b
  {
    assert (a - b) * c > 0;
  }

  /** The encoder that writes a thumbnail in its source's format; `None` for
      any type other than JPEG, PNG and GIF. */
  function EncodingFor(t: ImageType): Option<Encoding>
  {
    match t
    case Jpeg => Some(JpegAtQuality(80))
    case Png => Some(PngWithAlpha)
    case Gif => Some(GifWithAlpha)
    case OtherType(_) => None
  }

  /** The format an encoder writes. */
  function FormatOf(e: Encoding): ImageType
  {
    match e
    case JpegAtQuality(_) => Jpeg
    case PngWithAlpha => Png
    case GifWithAlpha => Gif
  }

  /** A thumbnail keeps the format of its source; JPEG is saved at quality 80. */
  lemma EncodingKeepsFormat(t: ImageType)
    ensures EncodingFor(t).Some? <==> !t.OtherType?
    ensures EncodingFor(t).Some? ==> FormatOf(EncodingFor(t).value) == t
    ensures EncodingFor(t).Some? && t == Jpeg ==> EncodingFor(t).value.quality == 80
  {
  }

  function SourcePath(file: string): Path
  {
    SharesDir + "/" + file
  }

  function ThumbPath(file: string): Path
  {
    ThumbDir + "/" + file
  }

  /** The decision for one listed file: no thumbnail yet, a readable source,
      a size `getimagesize` can read, a supported type and a successful decode. */
  function Plan(w: World, file: string, readable: bool, gd: Gd): Option<Thumbnail>
  {
    var source := SourcePath(file);
    if w.Exists(ThumbPath(file)) || source !in w.files || !readable then None
    else
      match gd.probe(w.files[source])
      case None => None
      case Some(info) =>
        match EncodingFor(info.imageType)
        case None => None
        case Some(e) =>
          var height := ThumbHeight(info.width, info.height);
          match gd.render(e, w.files[source], ThumbWidth, height)
          case None => None
          case Some(image) => Some(Thumbnail(e, ThumbWidth, height, image))
  }

  /** A thumbnail is planned exactly when none exists under that name and the
      source can be read, probed and decoded; it is then 300 wide, at least 1
      high, in the source's format, and is GD's rendering at that size. */
  lemma PlanRule(w: World, file: string, readable: bool, gd: Gd)
    ensures var p := Plan(w, file, readable, gd);
      var source := SourcePath(file);
      (p.Some? <==>
         !w.Exists(ThumbPath(file)) && source in w.files && readable &&
         gd.probe(w.files[source]).Some? &&
         EncodingFor(gd.probe(w.files[source]).value.imageType).Some? &&
         gd.render(EncodingFor(gd.probe(w.files[source]).value.imageType).value, w.files[source],
                   ThumbWidth, ThumbHeight(gd.probe(w.files[source]).value.width,
                                           gd.probe(w.files[source]).value.height)).Some?) &&
      (p.Some? ==>
         var info := gd.probe(w.files[source]).value;
         p.value.width == ThumbWidth && p.value.height >= 1 &&
         p.value.height == ThumbHeight(info.width, info.height) &&
         FormatOf(p.value.encoding) == info.imageType &&
         Some(p.value.image) == gd.render(p.value.encoding, w.files[source], ThumbWidth, p.value.height))
  {
    var source := SourcePath(file);
    if !w.Exists(ThumbPath(file)) && source in w.files && readable {
      match gd.probe(w.files[source])
      case None =>
      case Some(info) => EncodingKeepsFormat(info.imageType);
    }
  }

  // ---------------------------------------------------------------------------
  // Thumbnail loop

  /** Per-file faults: `is_readable` says no, or the encoder's write fails. */
  datatype ThumbFault = ThumbFault(unreadable: bool, write: WriteFault)

  /** One iteration of the `foreach`: write the planned thumbnail, if any. A
      failing write is not reported. */
  function ThumbFor(w: World, file: string, gd: Gd, f: ThumbFault): World
  {
    match Plan(w, file, !f.unreadable, gd)
    case None => w
    case Some(t) => AfterPut(w, ThumbPath(file), t.image, f.write).0
  }

  /** The whole `foreach`, over the list in order. */
  function ThumbAll(w: World, files: seq<string>, gd: Gd, faults: nat -> ThumbFault): World
    decreases |files|
  {
    if files == [] then w
    else
      var k := |files| - 1;
      ThumbFor(ThumbAll(w, files[..k], gd, faults), files[k], gd, faults(k))
  }

  /** One iteration as the script performs it on the disk. */
  method MakeThumbnail(disk: Disk, file: string, gd: Gd, f: ThumbFault)
    modifies disk
    ensures disk.State() == ThumbFor(old(disk.State()), file, gd, f)
  {
    var source := SharesDir + "/" + file;
    var thumb := ThumbDir + "/" + file;
    if disk.FileExists(thumb) || source !in disk.files || f.unreadable {
      return;
    }
    var info := gd.probe(disk.files[source]);
    if info.None? {
      return;
    }
    var height := ThumbHeight(info.value.width, info.value.height);
    var e := EncodingFor(info.value.imageType);
    if e.None? {
      return;
    }
    var image := gd.render(e.value, disk.files[source], ThumbWidth, height);
    if image.Some? {
      var _ := disk.Put(thumb, image.value, f.write);
    }
  }

  /** The `foreach` over the image list. */
  method GenerateThumbnails(disk: Disk, files: seq<string>, gd: Gd, faults: nat -> ThumbFault)
    modifies disk
    ensures disk.State() == ThumbAll(old(disk.State()), files, gd, faults)
  {
    ghost var w := disk.State();
    for i := 0 to |files|
      invariant disk.State() == ThumbAll(w, files[..i], gd, faults)
    {
      assert files[..i + 1][..i] == files[..i];
      MakeThumbnail(disk, files[i], gd, faults(i));
    }
    assert files[..|files|] == files;
  }

  /** One iteration changes at most its own thumbnail, and only one that did not exist. */
  lemma ThumbForFrame(w: World, file: string, gd: Gd, f: ThumbFault, q: Path)
    ensures var w' := ThumbFor(w, file, gd, f);
      w'.dirs == w.dirs &&
      (q in w.files ==> q in w'.files && w'.files[q] == w.files[q]) &&
      (q in w'.files && q !in w.files ==> q == ThumbPath(file))
  {
    match Plan(w, file, !f.unreadable, gd)
    case None =>
    case Some(t) =>
      if q != ThumbPath(file) {
        PutFrame(w, ThumbPath(file), t.image, f.write, q);
      }
  }

  /** The loop never overwrites a file, existing thumbnails included; the only
      new files are thumbnails of listed images; no directory changes. */
  lemma {:induction false} ThumbnailsOnlyAdded(w: World, files: seq<string>, gd: Gd,
                                                faults: nat -> ThumbFault, q: Path)
    ensures var w' := ThumbAll(w, files, gd, faults);
      w'.dirs == w.dirs &&
      (q in w.files ==> q in w'.files && w'.files[q] == w.files[q]) &&
      (q in w'.files && q !in w.files ==> exists f :: f in files && q == ThumbPath(f))
    decreases |files|
  {
    if files != [] {
      var k := |files| - 1;
      var mid := ThumbAll(w, files[..k], gd, faults);
      ThumbnailsOnlyAdded(w, files[..k], gd, faults, q);
      ThumbForFrame(mid, files[k], gd, faults(k), q);
      if q in ThumbAll(w, files, gd, faults).files && q !in w.files {
        if q in mid.files {
          var f :| f in files[..k] && q == ThumbPath(f);
          assert f in files;
        } else {
          assert files[k] in files;
        }
      }
    }
  }

  /** A thumbnail written without a fault holds GD's rendering of its source. */
  lemma ThumbnailHoldsRendering(w: World, file: string, gd: Gd, f: ThumbFault)
    requires f.write == NoFault && ThumbPath(file) !in w.dirs
    requires Plan(w, file, !f.unreadable, gd).Some?
    ensures var t := Plan(w, file, !f.unreadable, gd).value;
      ThumbFor(w, file, gd, f).files == w.files[ThumbPath(file) := t.image] &&
      t.width == ThumbWidth &&
      Some(t.image) == gd.render(t.encoding, w.files[SourcePath(file)], ThumbWidth, t.height)
  {
    PlanRule(w, file, !f.unreadable, gd);
  }

  // ---------------------------------------------------------------------------
  // The page's PHP prologue

  /** The state the HTML is rendered from: the world, `$image_files` and `$warning_message`. */
  datatype Page = Page(world: World, images: seq<string>, warning: string)

  /** Set-up, listing (with `entries` the names `scandir` returns at that
      point) and, when GD is usable, the thumbnail loop. */
  function ShareOutcome(w: World, gdLoaded: bool, mkdirFails: bool, entries: seq<string>,
                        gd: Gd, faults: nat -> ThumbFault): Page
  {
    var s := SetupOutcome(w, gdLoaded, mkdirFails);
    var images := ListImages(s.world, entries);
    var w' := if s.thumbnails then ThumbAll(s.world, images, gd, faults) else s.world;
    Page(w', images, s.warning)
  }

  method PrepareShare(disk: Disk, gdLoaded: bool, mkdirFails: bool, entries: seq<string>,
                      gd: Gd, faults: nat -> ThumbFault)
    returns (imageFiles: seq<string>, warning: string)
    modifies disk
    ensures Page(disk.State(), imageFiles, warning) ==
            ShareOutcome(old(disk.State()), gdLoaded, mkdirFails, entries, gd, faults)
  {
    var thumbnails := gdLoaded;
    warning := "";
    if !gdLoaded {
      warning := GdMissingWarning;
    }
    if gdLoaded && !disk.IsDir(ThumbDir) {
      var ok := disk.Mkdir(ThumbDir, mkdirFails);
      if !ok {
        warning := ThumbDirWarning;
        thumbnails := false;
      }
    }
    imageFiles := ListImages(disk.State(), entries);
    if thumbnails {
      GenerateThumbnails(disk, imageFiles, gd, faults);
    }
  }

  /** Without GD, or when the thumbnails directory cannot be made, the page
      writes nothing and warns. */
  lemma NoThumbnailsWhenDisabled(w: World, gdLoaded: bool, mkdirFails: bool, entries: seq<string>,
                                 gd: Gd, faults: nat -> ThumbFault)
    requires !gdLoaded || (ThumbDir !in w.dirs && (mkdirFails || w.Exists(ThumbDir) || SharesDir in w.files))
    ensures var p := ShareOutcome(w, gdLoaded, mkdirFails, entries, gd, faults);
      p.world == w && p.warning != "" && p.images == ListImages(w, entries)
  {
    ThumbDirAncestry(w);
  }

  /** Loading the page never changes or removes a file; it adds thumbnails of
      listed images only, and directories only on the way to the thumbnails. */
  lemma PageNeverOverwrites(w: World, gdLoaded: bool, mkdirFails: bool, entries: seq<string>,
                            gd: Gd, faults: nat -> ThumbFault, q: Path)
    ensures var p := ShareOutcome(w, gdLoaded, mkdirFails, entries, gd, faults);
      (q in w.files ==> q in p.world.files && p.world.files[q] == w.files[q]) &&
      (q in p.world.files && q !in w.files ==> exists f :: f in p.images && q == ThumbPath(f)) &&
      w.dirs <= p.world.dirs <= w.dirs + {ThumbDir} + Ancestors(ThumbDir)
  {
    var s := SetupOutcome(w, gdLoaded, mkdirFails);
    if s.thumbnails {
      ThumbnailsOnlyAdded(s.world, ListImages(s.world, entries), gd, faults, q);
    }
  }

  /** Every thumbnail written is named after an image the page lists. */
  lemma ThumbnailsBelongToListedImages(w: World, gdLoaded: bool, mkdirFails: bool,
                                       entries: seq<string>, gd: Gd,
                                       faults: nat -> ThumbFault, q: Path)
    requires var p := ShareOutcome(w, gdLoaded, mkdirFails, entries, gd, faults);
      q in p.world.files && q !in w.files
    ensures exists f :: f in entries && IsListed(SetupOutcome(w, gdLoaded, mkdirFails).world, f) &&
                        q == ThumbPath(f)
  {
    PageNeverOverwrites(w, gdLoaded, mkdirFails, entries, gd, faults, q);
    var p := ShareOutcome(w, gdLoaded, mkdirFails, entries, gd, faults);
    var f :| f in p.images && q == ThumbPath(f);
    assert f in entries;
  }
}
