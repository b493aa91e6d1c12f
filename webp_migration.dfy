// convert_to_webp.py: the one-off migration of the product images to WebP.
// The script converts every image with a supported extension, leaving a
// `.backup` copy of each converted original, and then rewrites the
// `image` paths in db.json to point at `.webp` files. Pillow, the JSON
// library and the filesystem are inputs; the console dialogue is left out.

module WebpMigration {
  import opened Support
  import opened FileStore

  // ---------------------------------------------------------------------------
  // Extensions and pathlib

  /** The extensions the script converts (line 22); `.webp` and `.svg` are not among them. */
  const SupportedFormats: set<string> := {".jpg", ".jpeg", ".png", ".bmp", ".gif", ".tiff", ".ico"}

  /** The last four characters of every supported extension. */
  const SupportedTails: set<string> := {".jpg", "jpeg", ".png", ".bmp", ".gif", "tiff", ".ico"}

  /** `PurePath.name`: the text after the last `/`. */
  function Name(p: Path): string
  {
    p[LastIndexOf(p, '/') + 1..]
  }

  /** `PurePath.suffix`: from the last `.` of the name, provided that dot is
      neither the name's first nor its last character; otherwise empty. */
  function PySuffix(p: Path): string
  {
    var n := Name(p);
    var i := LastIndexOf(n, '.');
    if 0 < i < |n| - 1 then n[i..] else ""
  }

  /** The name ends its path and holds no separator. */
  lemma NameShape(p: Path)
    ensures EndsWith(p, Name(p))
    ensures forall j :: 0 <= j < |Name(p)| ==> Name(p)[j] != '/'
  {
    var k := LastIndexOf(p, '/');
    var n := Name(p);
    forall j | 0 <= j < |n|
      ensures n[j] != '/'
    {
      assert n[j] == p[k + 1 + j];
    }
  }

  /** A suffix ends its path and, when there is one, is a dot followed by at
      least one character that is neither a dot nor a separator. */
  lemma SuffixShape(p: Path)
    ensures EndsWith(p, PySuffix(p))
    ensures var r := PySuffix(p);
      r != [] ==> 2 <= |r| && r[0] == '.' && forall j :: 0 < j < |r| ==> r[j] != '.' && r[j] != '/'
  {
    var n := Name(p);
    NameShape(p);
    var i := LastIndexOf(n, '.');
    if 0 < i < |n| - 1 {
      var r := n[i..];
      forall j | 0 < j < |r|
        ensures r[j] != '.' && r[j] != '/'
      {
        assert r[j] == n[i + j];
      }
    }
  }

  /** `PurePath.with_suffix(s)`: the suffix, if any, replaced by `s`. */
  function WithSuffix(p: Path, s: string): Path
  {
    p[..|p| - |PySuffix(p)|] + s
  }

  /** The file a conversion writes: `input_path.with_suffix('.webp')` (line 166). */
  function OutputPath(p: Path): Path
  {
    WithSuffix(p, ".webp")
  }

  /** `file_path.with_suffix(file_path.suffix + '.backup')` (lines 92 and 197). */
  function BackupOf(p: Path): Path
  {
    WithSuffix(p, PySuffix(p) + ".backup")
  }

  /** The scan's test: `file_path.suffix.lower() in SUPPORTED_FORMATS` (line 52). */
  predicate IsConvertible(p: Path)
  {
    Lower(PySuffix(p)) in SupportedFormats
  }

  /** Whatever the suffix, the backup is the whole path followed by `.backup`. */
  lemma BackupAppends(p: Path)
    ensures BackupOf(p) == p + ".backup"
    ensures EndsWith(BackupOf(p), ".backup")
  {
    var s := PySuffix(p);
    SuffixShape(p);
    assert p[..|p| - |s|] + s == p;
  }

  // ---------------------------------------------------------------------------
  // The string rewrite of db.json

  /** The test of lines 112-113: the lower-cased path ends with one of the
      supported extensions. The order in which the set is tried does not
      matter, since the rewrite does not depend on which extension matched. */
  predicate ImageRewrites(s: string)
  {
    exists e :: e in SupportedFormats && EndsWith(Lower(s), e)
  }

  /** `image_path.rsplit('.', 1)[0] + '.webp'` (line 114). */
  function RewritePath(s: string): string
  {
    var k := LastIndexOf(s, '.');
    (if k < 0 then s else s[..k]) + ".webp"
  }

  /** A string that ends with a supported extension has one of the
      supported four-character tails. */
  lemma SupportedTail(s: string, e: string)
    requires e in SupportedFormats && EndsWith(s, e)
    ensures |s| >= 4 && s[|s| - 4..] in SupportedTails
  {
    assert s[|s| - 4..] == e[|e| - 4..];
  }

  /** None of `.webp`, `.svg`, `.backup` and `.json` ends a path the rewrite touches. */
  lemma NotRewrittenEndings(s: string, x: string)
    requires x == ".webp" || x == ".svg" || x == ".backup" || x == ".json"
    requires EndsWith(s, x)
    ensures !ImageRewrites(s)
  {
    var tail := x[|x| - 4..];
    if x == ".webp" {
      assert tail == "webp";
    } else if x == ".svg" {
      assert tail == ".svg";
    } else if x == ".backup" {
      assert tail == "ckup";
    } else {
      assert tail == "json";
    }
    LowerLeavesLowerCase(tail);
    LowerTail(s, x);
    UnsupportedTail(s);
  }

  /** A string whose lowered last four characters are no supported tail is not rewritten. */
  lemma UnsupportedTail(s: string)
    requires |s| >= 4 && Lower(s)[|s| - 4..] in {"webp", ".svg", "ckup", "json"}
    ensures !ImageRewrites(s)
  {
    var t := Lower(s);
    forall e | e in SupportedFormats
      ensures !EndsWith(t, e)
    {
      if EndsWith(t, e) {
        SupportedTail(t, e);
      }
    }
  }

  /** The last four characters of a lowered string are the lowered last four of its ending. */
  lemma LowerTail(s: string, x: string)
    requires |x| >= 4 && EndsWith(s, x)
    ensures Lower(s)[|s| - 4..] == Lower(x[|x| - 4..])
  {
    LowerSlice(s, |s| - 4, |s|);
    assert s[|s| - 4..] == x[|x| - 4..];
  }

  /** A rewritten path ends with `.webp`, so a second pass leaves it alone. */
  lemma RewriteIdempotent(s: string)
    ensures EndsWith(RewritePath(s), ".webp")
    ensures !ImageRewrites(RewritePath(s))
  {
    var r := RewritePath(s);
    assert r[|r| - 5..] == ".webp";
    NotRewrittenEndings(r, ".webp");
  }

  /** The rewrite keeps the original-case text before the last dot, and
      that text is all of the path but the matched extension. */
  lemma RewriteReplacesExtension(s: string, e: string)
    requires e in SupportedFormats && EndsWith(Lower(s), e)
    ensures RewritePath(s) == s[..|s| - |e|] + ".webp"
  {
    var i := |s| - |e|;
    assert Lower(s)[i] == e[0] == '.';
    assert s[i] == '.';
    forall j | i < j < |s|
      ensures s[j] != '.'
    {
      assert Lower(s)[j] == e[j - i];
    }
    LastIndexOfAt(s, '.', i);
  }

  /** `a.JPG` becomes `a.webp` (line 114 keeps the text before the dot as it was). */
  lemma UpperCaseExtensionRewritten()
    ensures ImageRewrites("a.JPG") && RewritePath("a.JPG") == "a.webp"
  {
    var l := Lower("a.JPG");
    assert LowerChar('J') == 'j' && LowerChar('P') == 'p' && LowerChar('G') == 'g';
    assert l[1] == '.' && l[2] == 'j' && l[3] == 'p' && l[4] == 'g';
    assert l[1..] == ".jpg";
    assert ".jpg" in SupportedFormats && EndsWith(l, ".jpg");
    RewriteReplacesExtension("a.JPG", ".jpg");
  }

  /** For every file the scan picks up, the database rewrite points exactly
      at the file the conversion writes. */
  lemma ConvertibleRewritesToOutput(p: Path)
    requires IsConvertible(p)
    ensures ImageRewrites(p) && RewritePath(p) == OutputPath(p)
  {
    var e := Lower(PySuffix(p));
    SuffixShape(p);
    LowerOfEnding(p, PySuffix(p));
    assert e in SupportedFormats && EndsWith(Lower(p), e);
    SuffixStartsAtLastDot(p);
  }

  lemma LowerOfEnding(p: string, s: string)
    requires EndsWith(p, s)
    ensures EndsWith(Lower(p), Lower(s))
  {
    LowerSlice(p, |p| - |s|, |p|);
  }

  /** A non-empty suffix begins at the last dot of the whole path. */
  lemma SuffixStartsAtLastDot(p: Path)
    requires PySuffix(p) != []
    ensures RewritePath(p) == OutputPath(p)
  {
    var s := PySuffix(p);
    SuffixShape(p);
    var i := |p| - |s|;
    forall j | i < j < |p|
      ensures p[j] != '.'
    {
      assert p[j] == s[j - i];
    }
    LastIndexOfAt(p, '.', i);
  }

  /** The converse fails: a file named only by its extension, such as
      `Sofa/.jpg`, has no suffix for pathlib and is never converted, yet the
      database rewrite points its entry at `Sofa/.webp`. */
  lemma HiddenNameRewrittenButNotConverted()
    ensures ImageRewrites("Sofa/.jpg") && !IsConvertible("Sofa/.jpg")
  {
    var l := Lower("Sofa/.jpg");
    assert l[5] == '.' && l[6] == 'j' && l[7] == 'p' && l[8] == 'g';
    assert l[5..] == ".jpg";
    assert ".jpg" in SupportedFormats && EndsWith(l, ".jpg");
    LastIndexOfAt("Sofa/.jpg", '/', 4);
    assert Name("Sofa/.jpg") == ".jpg";
    LastIndexOfAt(".jpg", '.', 0);
  }

  // ---------------------------------------------------------------------------
  // update_db_json (lines 100-127)

  /** A JSON value inside a product entry: a string, or any other value,
      which the script never looks into. */
  datatype Value = JString(s: string) | JOther(id: nat)

  /** A product entry of db.json: a JSON object. */
  type Item = map<string, Value>

  /** `json.load` (None when it raises) and `json.dump(..., indent=4, ensure_ascii=False)`. */
  datatype JsonFile = JsonFile(load: Bytes -> Option<seq<Item>>, dump: seq<Item> -> Bytes)

  datatype Rewritten<T> = Rewritten(value: T, count: nat)

  /** Entries whose `image` the loop rewrites. */
  predicate ItemRewrites(item: Item)
  {
    "image" in item && item["image"].JString? && ImageRewrites(item["image"].s)
  }

  /** One pass of lines 109-117 over an entry. A non-string `image` makes
      `.lower()` raise, which abandons the whole update (None). */
  function RewriteItem(item: Item): (r: Option<Rewritten<Item>>)
    ensures r.None? <==> "image" in item && item["image"].JOther?
    ensures r.Some? ==>
      && r.value.value.Keys == item.Keys
      && (forall k :: k in item && k != "image" ==> r.value.value[k] == item[k])
      && (r.value.count == 1 <==> ItemRewrites(item))
      && (r.value.count == 0 <==> r.value.value == item)
      && (ItemRewrites(item) ==> r.value.value["image"] == JString(RewritePath(item["image"].s)))
  {
    if "image" !in item then Some(Rewritten(item, 0))
    else
      match item["image"]
      case JOther(_) => None
      case JString(imagePath) =>
        if ImageRewrites(imagePath) then
          RewriteIdempotent(imagePath);
          var rewritten := item["image" := JString(RewritePath(imagePath))];
          assert rewritten["image"] != item["image"];
          Some(Rewritten(rewritten, 1))
        else Some(Rewritten(item, 0))
  }

  /** The loop of lines 108-117 over the whole list, entry by entry. */
  function RewriteCatalog(items: seq<Item>): (r: Option<Rewritten<seq<Item>>>)
    ensures r.Some? <==> forall i :: 0 <= i < |items| ==> RewriteItem(items[i]).Some?
    ensures r.Some? ==>
      && |r.value.value| == |items|
      && (forall i :: 0 <= i < |items| ==> r.value.value[i] == RewriteItem(items[i]).value.value)
      && r.value.count <= |items|
    decreases |items|
  {
    if items == [] then Some(Rewritten([], 0))
    else
      var last := items[|items| - 1];
      match RewriteCatalog(items[..|items| - 1])
      case None => None
      case Some(done) =>
        match RewriteItem(last)
        case None => None
        case Some(item) => Some(Rewritten(done.value + [item.value], done.count + item.count))
  }

  /** The positions of the entries the loop rewrites. */
  function RewrittenPositions(items: seq<Item>): set<int>
  {
    set i | 0 <= i < |items| && ItemRewrites(items[i])
  }

  /** `updated_count` is the number of entries whose image path was rewritten. */
  lemma {:induction false} CountIsRewrittenEntries(items: seq<Item>)
    requires RewriteCatalog(items).Some?
    ensures RewriteCatalog(items).value.count == |RewrittenPositions(items)|
  {
    if items != [] {
      var n := |items| - 1;
      var pre := items[..n];
      CountIsRewrittenEntries(pre);
      assert RewriteCatalog(items).value.count
          == RewriteCatalog(pre).value.count + RewriteItem(items[n]).value.count;
      var rest: set<int> := if ItemRewrites(items[n]) then {n} else {};
      PositionsOfSnoc(items);
      assert n !in RewrittenPositions(pre);
      assert |RewrittenPositions(items)| == |RewrittenPositions(pre)| + |rest|;
    }
  }

  lemma PositionsOfSnoc(items: seq<Item>)
    requires items != []
    ensures var n := |items| - 1;
      RewrittenPositions(items) == RewrittenPositions(items[..n]) + (if ItemRewrites(items[n]) then {n} else {})
  {
  }

  /** A list whose every entry is left alone by the loop is returned as it
      is, with a count of 0. */
  lemma {:induction false} CatalogUnchanged(items: seq<Item>)
    requires forall i :: 0 <= i < |items| ==> RewriteItem(items[i]) == Some(Rewritten(items[i], 0))
    ensures RewriteCatalog(items) == Some(Rewritten(items, 0))
  {
    if items != [] {
      var n := |items| - 1;
      CatalogUnchanged(items[..n]);
      assert items[..n] + [items[n]] == items;
    }
  }

  /** Running the loop over its own output changes nothing and counts 0:
      no rewritten path ends with a supported extension. */
  lemma RewriteCatalogIdempotent(items: seq<Item>)
    requires RewriteCatalog(items).Some?
    ensures var out := RewriteCatalog(items).value.value;
      RewriteCatalog(out) == Some(Rewritten(out, 0))
  {
    var out := RewriteCatalog(items).value.value;
    forall i | 0 <= i < |out|
      ensures RewriteItem(out[i]) == Some(Rewritten(out[i], 0))
    {
      if ItemRewrites(items[i]) {
        RewriteIdempotent(items[i]["image"].s);
      }
    }
    CatalogUnchanged(out);
  }

  /** One more entry: the loop's result so far, extended by that entry's rewrite. */
  lemma RewriteCatalogSnoc(items: seq<Item>, i: int)
    requires 0 <= i < |items|
    requires RewriteCatalog(items[..i]).Some? && RewriteItem(items[i]).Some?
    ensures var done := RewriteCatalog(items[..i]).value;
      var item := RewriteItem(items[i]).value;
      RewriteCatalog(items[..i + 1]) == Some(Rewritten(done.value + [item.value], done.count + item.count))
  {
    assert items[..i + 1][..i] == items[..i];
  }

  /** The in-place loop over `data` (lines 106-117). On success `data` holds
      the rewritten list; on a non-string `image` the script raises, and the
      partly rewritten list is dropped by the caller. */
  method RewriteImagePaths(data: array<Item>) returns (ok: bool, updatedCount: nat)
    modifies data
    ensures ok <==> RewriteCatalog(old(data[..])).Some?
    ensures ok ==> data[..] == RewriteCatalog(old(data[..])).value.value
    ensures ok ==> updatedCount == RewriteCatalog(old(data[..])).value.count
  {
    ghost var original := data[..];
    updatedCount := 0;
    var i := 0;
    while i < data.Length
      invariant 0 <= i <= data.Length
      invariant RewriteCatalog(original[..i]).Some?
      invariant data[..i] == RewriteCatalog(original[..i]).value.value
      invariant updatedCount == RewriteCatalog(original[..i]).value.count
      invariant forall k :: i <= k < data.Length ==> data[k] == original[k]
    {
      ghost var before := updatedCount;
      var item := data[i];
      assert item == original[i];
      if "image" in item {
        var imagePath := item["image"];
        if imagePath.JOther? {
          assert RewriteItem(original[i]).None?;
          return false, 0;
        }
        var matched := MatchesSupportedFormat(imagePath.s);
        if matched {
          data[i] := item["image" := JString(RewritePath(imagePath.s))];
          updatedCount := updatedCount + 1;
        }
      }
      RewriteCatalogSnoc(original, i);
      assert data[i] == RewriteItem(item).value.value;
      assert updatedCount == before + RewriteItem(item).value.count;
      assert data[..i + 1] == data[..i] + [data[i]];
      i := i + 1;
    }
    assert original[..data.Length] == original;
    assert data[..] == data[..data.Length];
    ok := true;
  }

  /** The inner loop of lines 112-117: try the supported extensions one by
      one until the lower-cased path ends with one of them. */
  method MatchesSupportedFormat(imagePath: string) returns (found: bool)
    ensures found == ImageRewrites(imagePath)
  {
    var lowered := Lower(imagePath);
    var remaining := SupportedFormats;
    found := false;
    while remaining != {} && !found
      invariant remaining <= SupportedFormats
      invariant found ==> ImageRewrites(imagePath)
      invariant !found ==> forall e :: e in SupportedFormats && e !in remaining ==> !EndsWith(lowered, e)
      decreases |remaining|
    {
      var oldExt :| oldExt in remaining;
      if EndsWith(lowered, oldExt) {
        found := true;
      }
      remaining := remaining - {oldExt};
    }
  }

  /** What update_db_json leaves on disk and returns. Reading fails when the
      path is not a file, loading when the bytes are not JSON; both, and a
      non-string image, return 0 without writing. A failed write returns 0
      too, possibly after truncating the file. The list of converted files
      is accepted and never used (line 100). */
  function UpdateDbJsonOutcome(w: World, dbPath: Path, convertedFiles: seq<Path>, json: JsonFile,
                               fault: WriteFault): (World, nat)
  {
    if dbPath !in w.files then (w, 0)
    else
      match json.load(w.files[dbPath])
      case None => (w, 0)
      case Some(data) =>
        match RewriteCatalog(data)
        case None => (w, 0)
        case Some(r) =>
          var (w1, written) := AfterPut(w, dbPath, json.dump(r.value), fault);
          (w1, if written then r.count else 0)
  }

  /** update_db_json as the script runs it: load, rewrite in place, dump. */
  method UpdateDbJson(disk: Disk, dbPath: Path, convertedFiles: seq<Path>, json: JsonFile,
                      fault: WriteFault) returns (updatedCount: nat)
    modifies disk
    ensures (disk.State(), updatedCount) == UpdateDbJsonOutcome(old(disk.State()), dbPath, convertedFiles, json, fault)
  {
    if dbPath !in disk.files {
      return 0;
    }
    var loaded := json.load(disk.files[dbPath]);
    if loaded.None? {
      return 0;
    }
    var data := new Item[|loaded.value|](i requires 0 <= i < |loaded.value| => loaded.value[i]);
    assert data[..] == loaded.value;
    var ok, count := RewriteImagePaths(data);
    if !ok {
      return 0;
    }
    var written := disk.Put(dbPath, json.dump(data[..]), fault);
    updatedCount := if written then count else 0;
  }

  /** The rewrite is the same whichever files actually converted, so an
      entry whose conversion failed still points at a `.webp` file. */
  lemma ConvertedFilesIgnored(w: World, dbPath: Path, c1: seq<Path>, c2: seq<Path>, json: JsonFile,
                              fault: WriteFault)
    ensures UpdateDbJsonOutcome(w, dbPath, c1, json, fault) == UpdateDbJsonOutcome(w, dbPath, c2, json, fault)
  {
  }

  /** A non-zero count means db.json now holds the dump of the rewritten
      list, in which exactly that many entries changed. */
  lemma UpdatedDbHoldsRewrite(w: World, dbPath: Path, convertedFiles: seq<Path>, json: JsonFile,
                              fault: WriteFault)
    ensures var (w', n) := UpdateDbJsonOutcome(w, dbPath, convertedFiles, json, fault);
      n > 0 ==>
        && dbPath in w.files && json.load(w.files[dbPath]).Some?
        && var data := json.load(w.files[dbPath]).value;
        && RewriteCatalog(data).Some?
        && w'.files == w.files[dbPath := json.dump(RewriteCatalog(data).value.value)]
        && n == |RewrittenPositions(data)|
  {
    var (w', n) := UpdateDbJsonOutcome(w, dbPath, convertedFiles, json, fault);
    if n > 0 {
      CountIsRewrittenEntries(json.load(w.files[dbPath]).value);
    }
  }

  /** Only db.json can change. */
  lemma UpdateDbJsonFrame(w: World, dbPath: Path, convertedFiles: seq<Path>, json: JsonFile,
                          fault: WriteFault, q: Path)
    requires q != dbPath
    ensures var w' := UpdateDbJsonOutcome(w, dbPath, convertedFiles, json, fault).0;
      && w'.dirs == w.dirs
      && (q in w'.files <==> q in w.files)
      && (q in w.files ==> w'.files[q] == w.files[q])
  {
  }

  /** A second run over the file the first run wrote rewrites nothing, as
      long as the JSON library reads back what it dumped. */
  lemma SecondRunRewritesNothing(w: World, dbPath: Path, c1: seq<Path>, c2: seq<Path>, json: JsonFile,
                                 fault2: WriteFault)
    requires forall items :: json.load(json.dump(items)) == Some(items)
    ensures var w1 := UpdateDbJsonOutcome(w, dbPath, c1, json, NoFault).0;
      UpdateDbJsonOutcome(w1, dbPath, c2, json, fault2).1 == 0
  {
    if dbPath in w.files && json.load(w.files[dbPath]).Some? {
      var data := json.load(w.files[dbPath]).value;
      if RewriteCatalog(data).Some? {
        RewriteCatalogIdempotent(data);
      }
    }
  }

  // ---------------------------------------------------------------------------
  // The conversion loop of main (lines 160-200)

  /** Which filesystem calls fail while one file is handled: the backup copy,
      Pillow's save of the `.webp` file, the removal of the original, and the
      move of the backup back over the original. */
  datatype FileFaults = FileFaults(backup: WriteFault, save: WriteFault, unlinkFails: bool, restoreFails: bool)

  /** How the handling of one file ends. `Aborted` is an exception from the
      restoring `replace` (line 199), which nothing catches: the script stops. */
  datatype FileResult = Skipped | Errored | Converted | Aborted

  /** The three paths the handling of one file works with. */
  datatype Job = Job(input: Path, output: Path, backup: Path)

  /** The paths the loop derives from a scanned file (lines 166, 92 and 197). */
  function JobFor(p: Path): Job
  {
    Job(p, OutputPath(p), BackupOf(p))
  }

  function Jobs(paths: seq<Path>): (r: seq<Job>)
    ensures |r| == |paths| && forall i :: 0 <= i < |paths| ==> r[i] == JobFor(paths[i])
  {
    seq(|paths|, i requires 0 <= i < |paths| => JobFor(paths[i]))
  }

  /** The body of the loop for one file. `convert` is Pillow's decode,
      orientation, flattening, resize and WebP encode: the output bytes, or
      None when it raises. */
  function ConvertOne(w: World, job: Job, convert: Bytes -> Option<Bytes>, f: FileFaults): (World, FileResult)
  {
    if w.Exists(job.output) then (w, Skipped)
    else
      var (w1, backedUp) := AfterCopy(w, job.input, job.backup, f.backup);
      if !backedUp then (w1, Errored)
      else
        var (w2, saved) := match convert(w1.files[job.input])
                           case None => (w1, false)
                           case Some(webp) => AfterPut(w1, job.output, webp, f.save);
        if saved then (AfterUnlink(w2, job.input, f.unlinkFails).0, Converted)
        else if !w2.Exists(job.backup) then (w2, Errored)
        else
          var (w3, restored) := AfterReplace(w2, job.backup, job.input, f.restoreFails);
          (w3, if restored then Errored else Aborted)
  }

  /** One file, step by step over the disk. */
  method ConvertFile(disk: Disk, inputPath: Path, convert: Bytes -> Option<Bytes>, f: FileFaults)
    returns (result: FileResult)
    modifies disk
    ensures (disk.State(), result) == ConvertOne(old(disk.State()), JobFor(inputPath), convert, f)
  {
    var outputPath := OutputPath(inputPath);
    if disk.FileExists(outputPath) {
      return Skipped;
    }
    var backupPath := BackupOf(inputPath);
    var backedUp := disk.Copy(inputPath, backupPath, f.backup);
    if !backedUp {
      return Errored;
    }
    var webp := convert(disk.files[inputPath]);
    var success := false;
    if webp.Some? {
      success := disk.Put(outputPath, webp.value, f.save);
    }
    if success {
      var _ := disk.Unlink(inputPath, f.unlinkFails);
      return Converted;
    }
    if disk.FileExists(backupPath) {
      var restored := disk.Replace(backupPath, inputPath, f.restoreFails);
      if !restored {
        return Aborted;
      }
    }
    result := Errored;
  }

  /** The counters and the disk after the loop; `aborted` when it was cut short. */
  datatype Run = Run(world: World, converted: nat, skipped: nat, errors: nat, aborted: bool)
  {
    function Total(): nat
    {
      converted + skipped + errors
    }
  }

  function Tally(r: Run, w: World, result: FileResult): (r': Run)
    ensures r'.world == w
  {
    match result
    case Skipped => r.(world := w, skipped := r.skipped + 1)
    case Errored => r.(world := w, errors := r.errors + 1)
    case Converted => r.(world := w, converted := r.converted + 1)
    case Aborted => r.(world := w, aborted := true)
  }

  /** The loop over the files in order; `faults(i)` says what fails for the
      i-th file. An aborted run stops where it was. */
  function ConvertAll(w: World, jobs: seq<Job>, convert: Bytes -> Option<Bytes>,
                      faults: nat -> FileFaults): Run
    decreases |jobs|
  {
    if jobs == [] then Run(w, 0, 0, 0, false)
    else
      var n := |jobs| - 1;
      var r := ConvertAll(w, jobs[..n], convert, faults);
      if r.aborted then r
      else
        var (w', result) := ConvertOne(r.world, jobs[n], convert, faults(n));
        Tally(r, w', result)
  }

  /** The loop of lines 160-200 over the disk. */
  method ConvertImages(disk: Disk, imageFiles: seq<Path>, convert: Bytes -> Option<Bytes>,
                       faults: nat -> FileFaults)
    returns (converted: nat, skipped: nat, errors: nat, aborted: bool)
    modifies disk
    ensures Run(disk.State(), converted, skipped, errors, aborted)
         == ConvertAll(old(disk.State()), Jobs(imageFiles), convert, faults)
  {
    ghost var jobs := Jobs(imageFiles);
    converted, skipped, errors, aborted := 0, 0, 0, false;
    var i := 0;
    while i < |imageFiles|
      invariant 0 <= i <= |imageFiles|
      invariant Run(disk.State(), converted, skipped, errors, false)
             == ConvertAll(old(disk.State()), jobs[..i], convert, faults)
    {
      ghost var before := Run(disk.State(), converted, skipped, errors, false);
      ConvertAllSnoc(old(disk.State()), jobs, i, convert, faults);
      var result := ConvertFile(disk, imageFiles[i], convert, faults(i));
      assert Run(disk.State(), converted, skipped, errors, false) == before.(world := disk.State());
      match result {
        case Skipped => skipped := skipped + 1;
        case Errored => errors := errors + 1;
        case Converted => converted := converted + 1;
        case Aborted =>
          aborted := true;
          ConvertAllStopsWhenAborted(old(disk.State()), jobs, i + 1, convert, faults);
          return;
      }
      i := i + 1;
    }
    assert jobs[..i] == jobs;
  }

  /** One more file extends a run that has not been aborted by that file's
      outcome, and leaves an aborted run as it was. */
  lemma ConvertAllSnoc(w: World, jobs: seq<Job>, k: nat, convert: Bytes -> Option<Bytes>,
                       faults: nat -> FileFaults)
    requires k < |jobs|
    ensures var r := ConvertAll(w, jobs[..k], convert, faults);
      r.aborted ==> ConvertAll(w, jobs[..k + 1], convert, faults) == r
    ensures var r := ConvertAll(w, jobs[..k], convert, faults);
      !r.aborted ==>
        var step := ConvertOne(r.world, jobs[k], convert, faults(k));
        ConvertAll(w, jobs[..k + 1], convert, faults) == Tally(r, step.0, step.1)
  {
    assert jobs[..k + 1][..k] == jobs[..k];
  }

  /** Once a run is aborted, the files after it change nothing. */
  lemma {:induction false} ConvertAllStopsWhenAborted(w: World, jobs: seq<Job>, k: nat,
                                                      convert: Bytes -> Option<Bytes>, faults: nat -> FileFaults)
    requires k <= |jobs| && ConvertAll(w, jobs[..k], convert, faults).aborted
    ensures ConvertAll(w, jobs, convert, faults) == ConvertAll(w, jobs[..k], convert, faults)
    decreases |jobs| - k
  {
    if k < |jobs| {
      assert jobs[..k + 1][..k] == jobs[..k];
      ConvertAllStopsWhenAborted(w, jobs, k + 1, convert, faults);
    } else {
      assert jobs[..k] == jobs;
    }
  }

  /** Every file lands in exactly one of the three counters:
      `converted + skipped + errors == len(image_files)` unless a failed
      restore stopped the run, which then had not counted the file it
      stopped on. */
  lemma {:induction false} CountersAddUp(w: World, jobs: seq<Job>, convert: Bytes -> Option<Bytes>,
                                         faults: nat -> FileFaults)
    ensures var r := ConvertAll(w, jobs, convert, faults);
      && (!r.aborted ==> r.Total() == |jobs|)
      && (r.aborted ==> r.Total() < |jobs|)
    decreases |jobs|
  {
    if jobs != [] {
      CountersAddUp(w, jobs[..|jobs| - 1], convert, faults);
    }
  }

  // ---------------------------------------------------------------------------
  // Properties of one file

  /** An existing `.webp` output means the file is skipped: no backup and no
      change at all (lines 168-172). */
  lemma ExistingOutputSkips(w: World, p: Path, convert: Bytes -> Option<Bytes>, f: FileFaults)
    requires w.Exists(OutputPath(p))
    ensures ConvertOne(w, JobFor(p), convert, f) == (w, Skipped)
  {
  }

  /** When the backup copy fails the file counts as an error and nothing is
      converted: the original keeps its bytes and the only change is what a
      copy that failed part-way leaves at the backup path (lines 176-180). */
  lemma BackupFailureConvertsNothing(w: World, p: Path, convert: Bytes -> Option<Bytes>, f: FileFaults)
    requires !w.Exists(OutputPath(p))
    requires !f.backup.NoFault? || p !in w.files || BackupOf(p) in w.dirs
    ensures var (w', result) := ConvertOne(w, JobFor(p), convert, f);
      && result == Errored
      && (p in w.files ==> p in w'.files && w'.files[p] == w.files[p])
      && w' == (if f.backup.FailsLeaving? && p in w.files && BackupOf(p) !in w.dirs
                then w.(files := w.files[BackupOf(p) := f.backup.partial])
                else w)
  {
    BackupAppends(p);
    assert p != BackupOf(p);
  }

  /** A conversion that succeeds leaves the `.webp` file, keeps the backup
      of the original, and deletes the original unless the removal failed
      (lines 186-194). */
  lemma ConvertedKeepsBackup(w: World, p: Path, convert: Bytes -> Option<Bytes>, f: FileFaults)
    requires IsConvertible(p)
    ensures var (w', result) := ConvertOne(w, JobFor(p), convert, f);
      result == Converted ==>
        && p in w.files && convert(w.files[p]).Some?
        && OutputPath(p) in w'.files && w'.files[OutputPath(p)] == convert(w.files[p]).value
        && BackupOf(p) in w'.files && w'.files[BackupOf(p)] == w.files[p]
        && (p !in w'.files <==> !f.unlinkFails)
  {
    TouchedPathsDistinct(p);
    var job := JobFor(p);
    var r := ConvertOne(w, job, convert, f);
    if r.1 == Converted {
      assert !w.Exists(job.output);
      var (w1, backedUp) := AfterCopy(w, p, job.backup, f.backup);
      assert backedUp;
      assert w1.files == w.files[job.backup := w.files[p]];
      var webp := convert(w1.files[p]);
      assert webp.Some?;
      var (w2, saved) := AfterPut(w1, job.output, webp.value, f.save);
      assert saved;
      assert w2.files == w1.files[job.output := webp.value];
      assert r.0 == AfterUnlink(w2, p, f.unlinkFails).0;
    }
  }

  /** A conversion that fails moves the backup back over the original: the
      original is as it was and no backup is left (lines 195-200). */
  lemma FailedConversionRestores(w: World, p: Path, convert: Bytes -> Option<Bytes>, f: FileFaults)
    requires IsConvertible(p)
    ensures var (w', result) := ConvertOne(w, JobFor(p), convert, f);
      result == Errored && p in w.files && f.backup.NoFault? && BackupOf(p) !in w.dirs ==>
        && p in w'.files && w'.files[p] == w.files[p]
        && BackupOf(p) !in w'.files
  {
    TouchedPathsDistinct(p);
    var job := JobFor(p);
    if !w.Exists(job.output) && p in w.files && f.backup.NoFault? && BackupOf(p) !in w.dirs {
      var w1 := AfterCopy(w, p, job.backup, NoFault).0;
      assert w1.files[job.backup] == w.files[p] && w1.files[p] == w.files[p];
      var (w2, saved) := match convert(w1.files[p])
                         case None => (w1, false)
                         case Some(webp) => AfterPut(w1, job.output, webp, f.save);
      if !saved {
        if convert(w1.files[p]).Some? {
          PutFrame(w1, job.output, convert(w1.files[p]).value, f.save, job.backup);
          PutFrame(w1, job.output, convert(w1.files[p]).value, f.save, p);
        }
        assert job.backup in w2.files && w2.files[job.backup] == w.files[p];
      }
    }
  }

  /** For a convertible file the original, its output and its backup are
      three different paths. */
  lemma TouchedPathsDistinct(p: Path)
    requires IsConvertible(p)
    ensures p != OutputPath(p) && p != BackupOf(p) && OutputPath(p) != BackupOf(p)
  {
    ConvertibleFacts(p);
    EndsDiffer(OutputPath(p), BackupOf(p));
  }

  /** A path ending in `.webp` is never one ending in `.backup`. */
  lemma EndsDiffer(o: Path, b: Path)
    requires EndsWith(o, ".webp") && EndsWith(b, ".backup")
    ensures o != b
  {
    assert o[|o| - 2] == 'b' && b[|b| - 2] == 'u';
  }

  /** What the rest of the proof needs to know about a scanned file's paths. */
  lemma ConvertibleFacts(p: Path)
    requires IsConvertible(p)
    ensures ImageRewrites(p)
    ensures EndsWith(OutputPath(p), ".webp") && !ImageRewrites(OutputPath(p))
    ensures BackupOf(p) == p + ".backup" && EndsWith(BackupOf(p), ".backup") && !ImageRewrites(BackupOf(p))
  {
    ConvertibleRewritesToOutput(p);
    RewriteIdempotent(p);
    BackupAppends(p);
    NotRewrittenEndings(BackupOf(p), ".backup");
  }

  /** Handling a file changes nothing outside its three paths. */
  lemma ConvertOneFrame(w: World, job: Job, convert: Bytes -> Option<Bytes>, f: FileFaults, q: Path)
    requires q != job.input && q != job.output && q != job.backup
    ensures var w' := ConvertOne(w, job, convert, f).0;
      w'.dirs == w.dirs && SameAt(w, w', q)
  {
  }

  /** `q` has the same content, or the same absence, in both worlds. */
  predicate SameAt(w: World, w': World, q: Path)
  {
    (q in w'.files <==> q in w.files) && (q in w.files ==> w'.files[q] == w.files[q])
  }

  /** The original content of `job.input` in `w` is in `w'`, at its own
      path or at its backup. */
  predicate Kept(w: World, w': World, job: Job)
    requires job.input in w.files
  {
    || (job.input in w'.files && w'.files[job.input] == w.files[job.input])
    || (job.backup in w'.files && w'.files[job.backup] == w.files[job.input])
  }

  /** The central guarantee for one file: whatever fails, the original image
      is still on disk, at its own path or at its backup. */
  lemma OriginalSurvivesOne(w: World, p: Path, convert: Bytes -> Option<Bytes>, f: FileFaults)
    requires IsConvertible(p) && p in w.files
    ensures Kept(w, ConvertOne(w, JobFor(p), convert, f).0, JobFor(p))
  {
    TouchedPathsDistinct(p);
    JobKeepsOriginal(w, JobFor(p), convert, f);
  }

  lemma JobKeepsOriginal(w: World, job: Job, convert: Bytes -> Option<Bytes>, f: FileFaults)
    requires job.input != job.output && job.input != job.backup && job.output != job.backup
    requires job.input in w.files
    ensures Kept(w, ConvertOne(w, job, convert, f).0, job)
  {
  }

  // ---------------------------------------------------------------------------
  // The whole run

  /** The jobs of scanned files: each input is an image the rewrite touches,
      listed once, with an output ending in `.webp` and a backup that is the
      input followed by `.backup`. */
  predicate WellFormedJobs(jobs: seq<Job>)
  {
    && (forall i :: 0 <= i < |jobs| ==>
          && ImageRewrites(jobs[i].input)
          && EndsWith(jobs[i].output, ".webp") && !ImageRewrites(jobs[i].output)
          && jobs[i].backup == jobs[i].input + ".backup"
          && EndsWith(jobs[i].backup, ".backup") && !ImageRewrites(jobs[i].backup))
    && (forall i, j :: 0 <= i < j < |jobs| ==> jobs[i].input != jobs[j].input)
  }

  /** Scanned files: convertible, and each listed once. */
  predicate ScannedFiles(paths: seq<Path>)
  {
    && (forall i :: 0 <= i < |paths| ==> IsConvertible(paths[i]))
    && (forall i, j :: 0 <= i < j < |paths| ==> paths[i] != paths[j])
  }

  lemma ScannedFilesWellFormed(paths: seq<Path>)
    requires ScannedFiles(paths)
    ensures WellFormedJobs(Jobs(paths))
  {
    forall i | 0 <= i < |paths|
      ensures ImageRewrites(paths[i]) && EndsWith(OutputPath(paths[i]), ".webp")
      ensures !ImageRewrites(OutputPath(paths[i]))
      ensures BackupOf(paths[i]) == paths[i] + ".backup"
      ensures EndsWith(BackupOf(paths[i]), ".backup") && !ImageRewrites(BackupOf(paths[i]))
    {
      ConvertibleFacts(paths[i]);
    }
  }

  /** Two different jobs of a well-formed list keep out of each other's paths. */
  lemma JobsApart(a: Job, b: Job)
    requires ImageRewrites(a.input) && ImageRewrites(b.input) && a.input != b.input
    requires EndsWith(b.output, ".webp") && !ImageRewrites(b.output)
    requires a.backup == a.input + ".backup" && EndsWith(a.backup, ".backup") && !ImageRewrites(a.backup)
    requires b.backup == b.input + ".backup" && !ImageRewrites(b.backup)
    ensures a.input != b.output && a.input != b.backup
    ensures a.backup != b.input && a.backup != b.output && a.backup != b.backup
  {
    EndsDiffer(b.output, a.backup);
  }

  /** The first `k` files kept their originals; the rest are untouched. */
  predicate SurvivesUpTo(w: World, w': World, jobs: seq<Job>, k: nat)
  {
    && (forall i :: 0 <= i < k && i < |jobs| && jobs[i].input in w.files ==> Kept(w, w', jobs[i]))
    && (forall i :: k <= i < |jobs| ==> SameAt(w, w', jobs[i].input))
  }

  /** Handling the next file extends the guarantee by one file. */
  lemma SurvivesStep(w: World, ww: World, jobs: seq<Job>, n: nat, convert: Bytes -> Option<Bytes>,
                     f: FileFaults)
    requires WellFormedJobs(jobs) && n < |jobs| && SurvivesUpTo(w, ww, jobs, n)
    ensures SurvivesUpTo(w, ConvertOne(ww, jobs[n], convert, f).0, jobs, n + 1)
  {
    var w' := ConvertOne(ww, jobs[n], convert, f).0;
    forall i | 0 <= i < |jobs| && i != n
      ensures SameAt(ww, w', jobs[i].input) && SameAt(ww, w', jobs[i].backup)
    {
      OtherJobUntouched(jobs, i, n, ww, convert, f);
    }
    if jobs[n].input in ww.files {
      OwnPathsDistinct(jobs, n);
      JobKeepsOriginal(ww, jobs[n], convert, f);
    }
    SurvivesExtend(w, ww, w', jobs, n);
  }

  /** The bookkeeping of `SurvivesStep`, apart from what job `n` does. */
  lemma SurvivesExtend(w: World, ww: World, w': World, jobs: seq<Job>, n: nat)
    requires n < |jobs| && SurvivesUpTo(w, ww, jobs, n)
    requires forall i :: 0 <= i < |jobs| && i != n ==>
               SameAt(ww, w', jobs[i].input) && SameAt(ww, w', jobs[i].backup)
    requires jobs[n].input in ww.files ==> Kept(ww, w', jobs[n])
    ensures SurvivesUpTo(w, w', jobs, n + 1)
  {
  }

  /** Handling job `n` leaves another job's input and backup as they were. */
  lemma OtherJobUntouched(jobs: seq<Job>, i: nat, n: nat, ww: World,
                          convert: Bytes -> Option<Bytes>, f: FileFaults)
    requires WellFormedJobs(jobs) && i < |jobs| && n < |jobs| && i != n
    ensures var w' := ConvertOne(ww, jobs[n], convert, f).0;
      SameAt(ww, w', jobs[i].input) && SameAt(ww, w', jobs[i].backup)
  {
    JobsApart(jobs[i], jobs[n]);
    ConvertOneFrame(ww, jobs[n], convert, f, jobs[i].input);
    ConvertOneFrame(ww, jobs[n], convert, f, jobs[i].backup);
  }

  /** A well-formed job's input, output and backup are three different paths. */
  lemma OwnPathsDistinct(jobs: seq<Job>, n: nat)
    requires WellFormedJobs(jobs) && n < |jobs|
    ensures jobs[n].input != jobs[n].output && jobs[n].input != jobs[n].backup
    ensures jobs[n].output != jobs[n].backup
  {
    EndsDiffer(jobs[n].output, jobs[n].backup);
  }

  /** A stopped run keeps the guarantee for the file it stopped on, which it left alone. */
  lemma SurvivesStop(w: World, ww: World, jobs: seq<Job>, n: nat)
    requires n < |jobs| && SurvivesUpTo(w, ww, jobs, n)
    ensures SurvivesUpTo(w, ww, jobs, n + 1)
  {
  }

  /** The migration never loses an image: after the loop, whatever failed
      and even when a failed restore stopped it, the original content of
      every scanned file is still on disk, at its own path or at its backup. */
  lemma OriginalsSurvive(w: World, paths: seq<Path>, convert: Bytes -> Option<Bytes>, faults: nat -> FileFaults)
    requires ScannedFiles(paths)
    ensures var w' := ConvertAll(w, Jobs(paths), convert, faults).world;
      forall i :: 0 <= i < |paths| && paths[i] in w.files ==> Kept(w, w', JobFor(paths[i]))
  {
    var jobs := Jobs(paths);
    ScannedFilesWellFormed(paths);
    OriginalsSurvivePrefix(w, jobs, |jobs|, convert, faults);
    assert jobs[..|jobs|] == jobs;
  }

  lemma {:induction false} OriginalsSurvivePrefix(w: World, jobs: seq<Job>, k: nat,
                                                   convert: Bytes -> Option<Bytes>, faults: nat -> FileFaults)
    requires WellFormedJobs(jobs) && k <= |jobs|
    ensures SurvivesUpTo(w, ConvertAll(w, jobs[..k], convert, faults).world, jobs, k)
  {
    if k > 0 {
      var n := k - 1;
      OriginalsSurvivePrefix(w, jobs, n, convert, faults);
      var r := ConvertAll(w, jobs[..n], convert, faults);
      ConvertAllSnoc(w, jobs, n, convert, faults);
      if r.aborted {
        SurvivesStop(w, r.world, jobs, n);
      } else {
        SurvivesStep(w, r.world, jobs, n, convert, faults(n));
      }
    }
  }

  // ---------------------------------------------------------------------------
  // main (lines 129-220)

  /** What main leaves behind: the disk, the loop's counters when the loop
      ran, and the number of paths update_db_json reported. */
  datatype Migration = Migration(world: World, run: Option<Run>, updatedPaths: nat)

  /** main after the dependency check: nothing happens without scanned files
      or without the user's confirmation (lines 144-156); an aborted loop
      never reaches the database update; db.json is updated only when it
      exists (lines 202-209). */
  function MigrateOutcome(w: World, imageFiles: seq<Path>, confirmed: bool, convert: Bytes -> Option<Bytes>,
                          faults: nat -> FileFaults, dbPath: Path, json: JsonFile, dbFault: WriteFault): Migration
  {
    if imageFiles == [] || !confirmed then Migration(w, None, 0)
    else
      var r := ConvertAll(w, Jobs(imageFiles), convert, faults);
      if r.aborted then Migration(r.world, Some(r), 0)
      else if r.world.Exists(dbPath) then
        var (w', n) := UpdateDbJsonOutcome(r.world, dbPath, imageFiles, json, dbFault);
        Migration(w', Some(r), n)
      else Migration(r.world, Some(r), 0)
  }

  method Migrate(disk: Disk, imageFiles: seq<Path>, confirmed: bool, convert: Bytes -> Option<Bytes>,
                 faults: nat -> FileFaults, dbPath: Path, json: JsonFile, dbFault: WriteFault)
    returns (m: Migration)
    modifies disk
    ensures m.world == disk.State()
    ensures m == MigrateOutcome(old(disk.State()), imageFiles, confirmed, convert, faults, dbPath, json, dbFault)
  {
    if imageFiles == [] || !confirmed {
      return Migration(disk.State(), None, 0);
    }
    var converted, skipped, errors, aborted := ConvertImages(disk, imageFiles, convert, faults);
    var run := Run(disk.State(), converted, skipped, errors, aborted);
    if aborted {
      return Migration(disk.State(), Some(run), 0);
    }
    var updatedPaths := 0;
    if disk.FileExists(dbPath) {
      updatedPaths := UpdateDbJson(disk, dbPath, imageFiles, json, dbFault);
    }
    m := Migration(disk.State(), Some(run), updatedPaths);
  }

  /** The database file is never one of the images or their backups. */
  lemma JsonFileIsNoImage(dbPath: Path, p: Path)
    requires EndsWith(dbPath, ".json") && IsConvertible(p)
    ensures dbPath != p && dbPath != BackupOf(p)
  {
    ConvertibleFacts(p);
    NotRewrittenEndings(dbPath, ".json");
    JsonIsNoBackup(dbPath, BackupOf(p));
  }

  lemma JsonIsNoBackup(j: Path, b: Path)
    requires EndsWith(j, ".json") && EndsWith(b, ".backup")
    ensures j != b
  {
    assert j[|j| - 2] == 'o' && b[|b| - 2] == 'u';
  }

  /** The whole migration never loses an image: every scanned file's
      original content is on disk at the end, at its own path or at its
      backup, whatever failed and whether or not db.json was rewritten. */
  lemma MigrationKeepsOriginals(w: World, imageFiles: seq<Path>, confirmed: bool, convert: Bytes -> Option<Bytes>,
                                faults: nat -> FileFaults, dbPath: Path, json: JsonFile, dbFault: WriteFault)
    requires ScannedFiles(imageFiles) && EndsWith(dbPath, ".json")
    ensures var w' := MigrateOutcome(w, imageFiles, confirmed, convert, faults, dbPath, json, dbFault).world;
      forall i :: 0 <= i < |imageFiles| && imageFiles[i] in w.files ==> Kept(w, w', JobFor(imageFiles[i]))
  {
    if imageFiles != [] && confirmed {
      var r := ConvertAll(w, Jobs(imageFiles), convert, faults);
      OriginalsSurvive(w, imageFiles, convert, faults);
      if !r.aborted && r.world.Exists(dbPath) {
        var w' := UpdateDbJsonOutcome(r.world, dbPath, imageFiles, json, dbFault).0;
        forall i | 0 <= i < |imageFiles| && imageFiles[i] in w.files
          ensures Kept(w, w', JobFor(imageFiles[i]))
        {
          var p := imageFiles[i];
          JsonFileIsNoImage(dbPath, p);
          UpdateDbJsonFrame(r.world, dbPath, imageFiles, json, dbFault, p);
          UpdateDbJsonFrame(r.world, dbPath, imageFiles, json, dbFault, BackupOf(p));
        }
      }
    }
  }
}
