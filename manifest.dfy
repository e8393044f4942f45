/**
 * The manifest builder (scripts/generate-model-manifest.mjs): from the listing
 * of the `model` directory it builds the catalog the gallery page reads. Only
 * regular files whose extension is ".usdz" in any letter case become entries;
 * nothing pairs a ".glb" file with them, so no entry has an Android path.
 *
 * The listing (names, kinds and sizes, as `readdir` and `stat` report them),
 * the platform path separator and the collation used by `localeCompare` are
 * inputs. Writing the JSON file and the timestamps are not modelled.
 */
module Manifest {
  import opened Wrappers
  import opened Text
  import opened NodePath
  import opened DisplayName

  const ModelDir := "model"
  const ModelExtension := ".usdz"
  /** Thumbnail extensions in order of preference. */
  const ThumbnailExtensions: seq<string> := [".jpg", ".jpeg", ".png", ".webp", ".avif"]
  const SizeUnits: seq<string> := ["B", "KB", "MB", "GB"]
  const FolderNotFound := "找不到模型資料夾："

  datatype EntryKind = RegularFile | Directory | SymbolicLink | OtherKind

  /** One directory entry with the size `stat` reports for it. */
  datatype DirEntry = DirEntry(name: string, kind: EntryKind, size: nat)

  /**
   * `formatFileSize`: "0 B" for an empty file, otherwise the size divided by
   * 1024^exponent, printed with `fractionDigits` decimals, then the unit
   * `SizeUnits[exponent]`.
   */
  datatype HumanSize = ZeroBytes | Scaled(exponent: nat, fractionDigits: nat)

  datatype SizeInfo = SizeInfo(bytes: nat, humanReadable: HumanSize)

  /** One catalog item; `thumbnailPath` is `null` when there is no thumbnail. */
  datatype CatalogEntry = CatalogEntry(
    id: string,
    displayName: string,
    fileName: string,
    modelPath: string,
    thumbnailPath: Option<string>,
    size: SizeInfo)

  datatype Catalog = Catalog(total: nat, items: seq<CatalogEntry>)

  /** An I/O error: the Node error `code` when it has one, and its message. */
  datatype IoError = IoError(code: Option<string>, message: string)

  // ---------------------------------------------------------------- safeReadDir

  /**
   * `safeReadDir`: a missing directory becomes a new error naming the path
   * (with no error code); every other outcome passes through unchanged.
   */
  function SafeReadDir(target: string, outcome: Result<seq<DirEntry>, IoError>): (r: Result<seq<DirEntry>, IoError>)
    ensures r.Success? <==> outcome.Success?
    ensures outcome.Success? ==> r == outcome
    ensures outcome.Failure? && outcome.error.code == Some("ENOENT") ==>
      r.error == IoError(None, FolderNotFound + target)
    ensures outcome.Failure? && outcome.error.code != Some("ENOENT") ==> r == outcome
  {
    match outcome
    case Success(_) => outcome
    case Failure(e) => if e.code == Some("ENOENT") then Failure(IoError(None, FolderNotFound + target)) else outcome
  }

  // ------------------------------------------------------------- formatFileSize

  function Pow1024(e: nat): (p: nat)
    ensures p >= 1
  {
    if e == 0 then 1 else 1024 * Pow1024(e - 1)
  }

  lemma {:induction false} Pow1024Monotone(a: nat, b: nat)
    requires a <= b
    ensures Pow1024(a) <= Pow1024(b)
    decreases b
  {
    if a < b {
      Pow1024Monotone(a, b - 1);
    }
  }

  /** `Math.floor(Math.log(n) / Math.log(1024))`: the k with 1024^k <= n < 1024^(k+1). */
  function FloorLog1024(n: nat): (k: nat)
    requires n >= 1
    ensures Pow1024(k) <= n < Pow1024(k + 1)
    decreases n
  {
    if n < 1024 then 0 else 1 + FloorLog1024(n / 1024)
  }

  /**
   * `formatFileSize`: the unit is the largest power of 1024 not above the
   * size, capped at GB; one decimal is shown only for a scaled value below 10.
   */
  function FormatFileSize(bytes: nat): (h: HumanSize)
    ensures h.ZeroBytes? <==> bytes == 0
    ensures h.Scaled? ==> h.exponent < |SizeUnits| && Pow1024(h.exponent) <= bytes
    ensures h.Scaled? && h.exponent < |SizeUnits| - 1 ==> bytes < Pow1024(h.exponent + 1)
    ensures h.Scaled? ==> h.fractionDigits <= 1
    ensures h.Scaled? ==> (h.fractionDigits == 1 <==> h.exponent > 0 && bytes < 10 * Pow1024(h.exponent))
  {
    if bytes == 0 then ZeroBytes
    else
      var log := FloorLog1024(bytes);
      var exponent := if log < |SizeUnits| - 1 then log else |SizeUnits| - 1;
      Pow1024Monotone(exponent, log);
      var fractionDigits := if bytes >= 10 * Pow1024(exponent) || exponent == 0 then 0 else 1;
      Scaled(exponent, fractionDigits)
  }

  /** The chosen unit is the largest one whose size does not exceed the file's. */
  lemma {:induction false} UnitIsLargestFitting(bytes: nat, e: nat)
    requires bytes > 0 && e < |SizeUnits| && Pow1024(e) <= bytes
    ensures e <= FormatFileSize(bytes).exponent
  {

  }

  // -------------------------------------------------------------- findThumbnail

  /** The first `baseName + ext`, for `ext` in the order of `exts`, that is a listed file. */
  function FirstThumbnail(baseName: string, files: set<string>, exts: seq<string>): Option<string>
  {
    if exts == [] then None
    else if baseName + exts[0] in files then Some(baseName + exts[0])
    else FirstThumbnail(baseName, files, exts[1..])
  }

  /**
   * The thumbnail is `baseName + exts[k]` for the first k whose file exists,
   * and there is none exactly when no candidate exists.
   */
  lemma {:induction false} FirstThumbnailIsFirstPresent(baseName: string, files: set<string>, exts: seq<string>)
    ensures FirstThumbnail(baseName, files, exts).None? <==> forall k :: 0 <= k < |exts| ==> baseName + exts[k] !in files
    ensures FirstThumbnail(baseName, files, exts).Some? ==>
      exists k :: 0 <= k < |exts| && FirstThumbnail(baseName, files, exts).value == baseName + exts[k]
        && baseName + exts[k] in files
        && forall j :: 0 <= j < k ==> baseName + exts[j] !in files
  {
    if exts != [] {
      FirstThumbnailIsFirstPresent(baseName, files, exts[1..]);
      assert forall k :: 1 <= k < |exts| ==> exts[1..][k - 1] == exts[k];
      if baseName + exts[0] !in files && FirstThumbnail(baseName, files, exts).Some? {
        var k :| 0 <= k < |exts[1..]| && FirstThumbnail(baseName, files, exts[1..]).value == baseName + exts[1..][k]
          && baseName + exts[1..][k] in files && forall j :: 0 <= j < k ==> baseName + exts[1..][j] !in files;
        assert FirstThumbnail(baseName, files, exts).value == baseName + exts[k + 1];
      }
    }
  }

  /** For one stem, a ".jpg" thumbnail is chosen over a ".png" one. */
  lemma JpgBeatsPng(baseName: string, files: set<string>)
    requires baseName + ".jpg" in files && baseName + ".png" in files
    ensures FirstThumbnail(baseName, files, ThumbnailExtensions) == Some(baseName + ".jpg")
  {
  }

  /** `findThumbnail`: tries the extensions in order and returns the first candidate that exists. */
  method FindThumbnail(baseName: string, fileSet: set<string>) returns (thumbnail: Option<string>)
    ensures thumbnail == FirstThumbnail(baseName, fileSet, ThumbnailExtensions)
  {
    for i := 0 to |ThumbnailExtensions|
      invariant FirstThumbnail(baseName, fileSet, ThumbnailExtensions[i..]) == FirstThumbnail(baseName, fileSet, ThumbnailExtensions)
    {
      var candidate := baseName + ThumbnailExtensions[i];
      assert ThumbnailExtensions[i..][1..] == ThumbnailExtensions[i + 1..];
      if candidate in fileSet {
        return Some(candidate);
      }
    }
    return None;
  }

  // -------------------------------------------------------------- buildManifest

  /** A listed file that becomes a catalog entry: a regular file with extension ".usdz" in any case. */
  predicate IsModelFile(f: DirEntry) {
    f.kind == RegularFile && Lower(Extname(f.name)) == ModelExtension
  }

  /** A piece that lower-cases to ".usdz" starts with its only dot. */
  lemma ModelExtensionShape(t: string)
    requires Lower(t) == ModelExtension
    ensures |t| == |ModelExtension| && t[0] == '.' && forall j :: 0 < j < |t| ==> t[j] != '.'
  {
    assert LowerChar(t[0]) == '.';
    forall j | 0 < j < |t| ensures t[j] != '.' {
      assert LowerChar(t[j]) == ModelExtension[j] != '.';
    }
  }

  /** A model file is exactly a regular file whose name ends in ".usdz" (any case) after at least one character. */
  lemma {:induction false} ModelFileByName(f: DirEntry)
    requires f.kind == RegularFile
    ensures IsModelFile(f) <==> |f.name| > |ModelExtension| && Lower(f.name[|f.name| - |ModelExtension|..]) == ModelExtension
  {
    var n := f.name;
    var ext := Extname(n);
    var m := |ModelExtension|;
    if IsModelFile(f) {
      assert |ext| == m;
    }
    if |n| > m && Lower(n[|n| - m..]) == ModelExtension {
      ModelExtensionShape(n[|n| - m..]);
      ExtnameOfSuffix(n, n[|n| - m..]);
    }
  }

  /** The regular files of the listing, in listing order. */
  function RegularFiles(entries: seq<DirEntry>): (files: seq<DirEntry>)
    ensures forall f :: f in files <==> f in entries && f.kind == RegularFile
  {
    if entries == [] then []
    else
      var last := entries[|entries| - 1];
      RegularFiles(entries[..|entries| - 1]) + (if last.kind == RegularFile then [last] else [])
  }

  /** A one-entry listing keeps its entry exactly when it is a regular file. */
  lemma RegularFilesSingle(f: DirEntry)
    ensures RegularFiles([f]) == if f.kind == RegularFile then [f] else []
  {
    assert [f][..0] == [];
  }

  /** Filtering keeps listing order: the regular files of `a + b` are those of `a`, then those of `b`. */
  lemma {:induction false} RegularFilesAppend(a: seq<DirEntry>, b: seq<DirEntry>)
    ensures RegularFiles(a + b) == RegularFiles(a) + RegularFiles(b)
    decreases |b|
  {
    if b == [] {
      assert a + b == a;
    } else {
      var init := b[..|b| - 1];
      assert (a + b)[..|a + b| - 1] == a + init;
      RegularFilesAppend(a, init);
    }
  }

  function NameSet(files: seq<DirEntry>): set<string> {
    set f | f in files :: f.name
  }

  /** `toPosix(path.join('model', name))`. */
  function ModelPathFor(name: string, sep: char): (path: string)
    requires IsSeparator(sep) && IsEntryName(name, sep)
    ensures path == ModelDir + "/" + name
  {
    PosixJoin(ModelDir, name, sep);
    ToPosix(Join(ModelDir, name, sep), sep)
  }

  /** `thumbnail ? toPosix(path.join('model', thumbnail)) : null`. */
  function ThumbnailPathFor(baseName: string, fileSet: set<string>, sep: char): (path: Option<string>)
    requires IsSeparator(sep) && baseName != "" && '/' !in baseName && sep !in baseName
    ensures path.None? <==> FirstThumbnail(baseName, fileSet, ThumbnailExtensions).None?
    ensures path.Some? ==> path.value == ModelDir + "/" + FirstThumbnail(baseName, fileSet, ThumbnailExtensions).value
  {
    var thumbnail := FirstThumbnail(baseName, fileSet, ThumbnailExtensions);
    if thumbnail.Some? then
      FirstThumbnailIsFirstPresent(baseName, fileSet, ThumbnailExtensions);
      var k :| 0 <= k < |ThumbnailExtensions| && thumbnail.value == baseName + ThumbnailExtensions[k];
      assert '/' !in ThumbnailExtensions[k] && sep !in ThumbnailExtensions[k];
      Some(ModelPathFor(thumbnail.value, sep))
    else None
  }

  /** The entry built for one model file (the body of the script's loop). */
  function EntryFor(file: DirEntry, fileSet: set<string>, sep: char): (e: CatalogEntry)
    requires IsModelFile(file) && IsSeparator(sep) && IsEntryName(file.name, sep)
    ensures e.fileName == file.name
    ensures e.id != "" && e.id + Extname(file.name) == file.name
    ensures e.displayName == PrettifyName(e.id)
    ensures e.modelPath == ModelDir + "/" + file.name
    ensures e.thumbnailPath.None? <==> FirstThumbnail(e.id, fileSet, ThumbnailExtensions).None?
    ensures e.thumbnailPath.Some? ==> e.thumbnailPath.value == ModelDir + "/" + FirstThumbnail(e.id, fileSet, ThumbnailExtensions).value
    ensures e.size == SizeInfo(file.size, FormatFileSize(file.size))
  {
    var baseName := Basename(file.name, Extname(file.name));
    StemPlusExtension(file.name);
    assert baseName == file.name[..|baseName|];
    CatalogEntry(
      baseName,
      PrettifyName(baseName),
      file.name,
      ModelPathFor(file.name, sep),
      ThumbnailPathFor(baseName, fileSet, sep),
      SizeInfo(file.size, FormatFileSize(file.size)))
  }

  /** Every listed name is a single entry name. */
  predicate EntryNames(files: seq<DirEntry>, sep: char) {
    forall f :: f in files ==> IsEntryName(f.name, sep)
  }

  /** The entries the loop pushes, in listing order, before sorting. */
  function ModelEntries(files: seq<DirEntry>, fileSet: set<string>, sep: char): seq<CatalogEntry>
    requires IsSeparator(sep) && EntryNames(files, sep)
  {
    if files == [] then []
    else
      var last := files[|files| - 1];
      ModelEntries(files[..|files| - 1], fileSet, sep)
        + (if IsModelFile(last) then [EntryFor(last, fileSet, sep)] else [])
  }

  /** The model files of a listing, in listing order. */
  function ModelFiles(files: seq<DirEntry>): (models: seq<DirEntry>)
    ensures forall f :: f in models <==> f in files && IsModelFile(f)
  {
    if files == [] then []
    else ModelFiles(files[..|files| - 1]) + (if IsModelFile(files[|files| - 1]) then [files[|files| - 1]] else [])
  }

  /** A one-file listing keeps its file exactly when it is a model file. */
  lemma ModelFilesSingle(f: DirEntry)
    ensures ModelFiles([f]) == if IsModelFile(f) then [f] else []
  {
    assert [f][..0] == [];
  }

  /** The model files of `a + b` are those of `a`, then those of `b`, each in listing order. */
  lemma {:induction false} ModelFilesAppend(a: seq<DirEntry>, b: seq<DirEntry>)
    ensures ModelFiles(a + b) == ModelFiles(a) + ModelFiles(b)
    decreases |b|
  {
    if b == [] {
      assert a + b == a;
    } else {
      var init := b[..|b| - 1];
      assert (a + b)[..|a + b| - 1] == a + init;
      ModelFilesAppend(a, init);
    }
  }

  /** The listing keeps as many entries as it has model files. */
  lemma {:induction false} EntryCount(files: seq<DirEntry>, fileSet: set<string>, sep: char)
    requires IsSeparator(sep) && EntryNames(files, sep)
    ensures |ModelEntries(files, fileSet, sep)| == |ModelFiles(files)|
  {
    if files != [] {
      var init := files[..|files| - 1];
      assert EntryNames(init, sep) by {
        forall f | f in init ensures IsEntryName(f.name, sep) {
          assert f in files;
        }
      }
      EntryCount(init, fileSet, sep);
    }
  }

  /** The k-th entry is built from the k-th model file. */
  lemma {:induction false} EntryAt(files: seq<DirEntry>, fileSet: set<string>, sep: char, k: int)
    requires IsSeparator(sep) && EntryNames(files, sep)
    requires 0 <= k < |ModelFiles(files)|
    ensures |ModelEntries(files, fileSet, sep)| == |ModelFiles(files)|
    ensures IsModelFile(ModelFiles(files)[k]) && IsEntryName(ModelFiles(files)[k].name, sep)
    ensures ModelEntries(files, fileSet, sep)[k] == EntryFor(ModelFiles(files)[k], fileSet, sep)
  {
    EntryCount(files, fileSet, sep);
    var init := files[..|files| - 1];
    assert EntryNames(init, sep) by {
      forall f | f in init ensures IsEntryName(f.name, sep) {
        assert f in files;
      }
    }
    EntryCount(init, fileSet, sep);
    var last := files[|files| - 1];
    var initModels, initEntries := ModelFiles(init), ModelEntries(init, fileSet, sep);
    var models, entries := ModelFiles(files), ModelEntries(files, fileSet, sep);
    assert models[k] in files;
    if k < |initModels| {
      EntryAt(init, fileSet, sep, k);
      assert models == initModels + (if IsModelFile(last) then [last] else []);
      assert models[k] == initModels[k];
      assert entries[k] == initEntries[k];
    } else {
      assert IsModelFile(last) && models == initModels + [last];
      assert entries == initEntries + [EntryFor(last, fileSet, sep)];
    }
  }

  /**
   * Exactly one entry per model file, in listing order: the k-th entry is
   * built from the k-th model file, and no other file yields an entry.
   */
  lemma OneEntryPerModelFile(files: seq<DirEntry>, fileSet: set<string>, sep: char)
    requires IsSeparator(sep) && EntryNames(files, sep)
    ensures |ModelEntries(files, fileSet, sep)| == |ModelFiles(files)|
    ensures forall k :: 0 <= k < |ModelFiles(files)| ==>
      IsModelFile(ModelFiles(files)[k]) && EntryNames(ModelFiles(files), sep) &&
      ModelEntries(files, fileSet, sep)[k] == EntryFor(ModelFiles(files)[k], fileSet, sep)
  {
    EntryCount(files, fileSet, sep);
    var models := ModelFiles(files);
    assert EntryNames(models, sep) by {
      forall f | f in models ensures IsEntryName(f.name, sep) {
        assert f in files;
      }
    }
    forall k | 0 <= k < |models|
      ensures IsModelFile(models[k]) && ModelEntries(files, fileSet, sep)[k] == EntryFor(models[k], fileSet, sep)
    {
      EntryAt(files, fileSet, sep, k);
    }
  }

  /** Every entry is the entry of some model file of the listing. */
  lemma EntriesComeFromModelFiles(files: seq<DirEntry>, fileSet: set<string>, sep: char, e: CatalogEntry)
    requires IsSeparator(sep) && EntryNames(files, sep)
    requires e in ModelEntries(files, fileSet, sep)
    ensures exists f :: f in files && IsModelFile(f) && IsEntryName(f.name, sep) && e == EntryFor(f, fileSet, sep)
  {
    var entries := ModelEntries(files, fileSet, sep);
    EntryCount(files, fileSet, sep);
    var k :| 0 <= k < |entries| && entries[k] == e;
    EntryAt(files, fileSet, sep, k);
    var f := ModelFiles(files)[k];
    assert f in files;
  }

  /** The warning logged for a model without a thumbnail. */
  function MissingThumbnailWarning(fileName: string): string {
    "[WaytoAR] 找不到 " + fileName + " 對應的縮圖，將以預設樣式呈現。"
  }

  /** One warning per entry without a thumbnail, in entry order. */
  function MissingThumbnailWarnings(entries: seq<CatalogEntry>): seq<string> {
    if entries == [] then []
    else
      MissingThumbnailWarnings(entries[..|entries| - 1])
        + (if entries[|entries| - 1].thumbnailPath.None? then [MissingThumbnailWarning(entries[|entries| - 1].fileName)] else [])
  }

  /** A warning is logged for an entry exactly when the entry has no thumbnail. */
  lemma {:induction false} WarningsAreMissingThumbnails(entries: seq<CatalogEntry>)
    ensures forall w :: w in MissingThumbnailWarnings(entries) <==>
      exists e :: e in entries && e.thumbnailPath.None? && w == MissingThumbnailWarning(e.fileName)
  {
    if entries != [] {
      var init := entries[..|entries| - 1];
      WarningsAreMissingThumbnails(init);
      assert entries == init + [entries[|entries| - 1]];
    }
  }

  /**
   * JavaScript's `sort` asks of its comparator that swapping the arguments
   * flips the sign of the result, as `localeCompare` does.
   */
  ghost predicate SignAntisymmetric(collate: (string, string) -> int) {
    forall a, b :: collate(a, b) < 0 <==> collate(b, a) > 0
  }

  /** `x` may come before `y` in the sorted catalog. */
  predicate InOrder(collate: (string, string) -> int, x: CatalogEntry, y: CatalogEntry) {
    collate(x.displayName, y.displayName) <= 0
  }

  /** No neighbouring pair of entries is out of order. */
  predicate SortedByName(items: seq<CatalogEntry>, collate: (string, string) -> int) {
    forall k :: 0 < k < |items| ==> InOrder(collate, items[k - 1], items[k])
  }

  /** When the collation's "not after" is transitive, neighbour order is the order of every pair. */
  lemma {:induction false} SortedIsPairwise(items: seq<CatalogEntry>, collate: (string, string) -> int, i: int, j: int)
    requires SortedByName(items, collate)
    requires forall a, b, c :: collate(a, b) <= 0 && collate(b, c) <= 0 ==> collate(a, c) <= 0
    requires 0 <= i < j < |items|
    ensures InOrder(collate, items[i], items[j])
    decreases j - i
  {
    if i + 1 < j {
      SortedIsPairwise(items, collate, i + 1, j);
      assert InOrder(collate, items[i], items[i + 1]);
    }
  }

  /** Exchanges the entries at `j - 1` and `j`. */
  method SwapWithPrevious(a: array<CatalogEntry>, j: int)
    requires 0 < j < a.Length
    modifies a
    ensures a[..] == old(a[..])[j - 1 := old(a[j])][j := old(a[j - 1])]
    ensures multiset(a[..]) == multiset(old(a[..]))
  {
    a[j - 1], a[j] := a[j], a[j - 1];
  }

  /**
   * One step of the insertion sort: moves `a[i]` left past every entry that
   * collates after it, so that `a[..i + 1]` is in order when `a[..i]` was.
   */
  method InsertIntoSorted(a: array<CatalogEntry>, i: int, collate: (string, string) -> int)
    requires SignAntisymmetric(collate)
    requires 0 <= i < a.Length
    requires forall k :: 0 < k < i ==> InOrder(collate, a[k - 1], a[k])
    modifies a
    ensures forall k :: 0 < k <= i ==> InOrder(collate, a[k - 1], a[k])
    ensures multiset(a[..]) == multiset(old(a[..]))
  {
    var j := i;
    while j > 0 && collate(a[j].displayName, a[j - 1].displayName) < 0
      invariant 0 <= j <= i
      invariant forall k :: 0 < k <= i && k != j ==> InOrder(collate, a[k - 1], a[k])
      invariant 0 < j < i ==> InOrder(collate, a[j - 1], a[j + 1])
      invariant multiset(a[..]) == multiset(old(a[..]))
    {
      SwapWithPrevious(a, j);
      j := j - 1;
    }
    if j > 0 {
      assert collate(a[j - 1].displayName, a[j].displayName) <= 0;
    }
  }

  /** `models.sort(...)`: a stable insertion sort of the array by display name. */
  method SortByDisplayName(a: array<CatalogEntry>, collate: (string, string) -> int)
    requires SignAntisymmetric(collate)
    modifies a
    ensures SortedByName(a[..], collate)
    ensures multiset(a[..]) == multiset(old(a[..]))
  {
    for i := 0 to a.Length
      invariant forall k :: 0 < k < i ==> InOrder(collate, a[k - 1], a[k])
      invariant multiset(a[..]) == multiset(old(a[..]))
    {
      InsertIntoSorted(a, i, collate);
    }
  }

  /**
   * The body of the script's loop for one model file: looks up its thumbnail
   * and builds its entry; `missing` tells whether a warning is due.
   */
  method BuildEntry(file: DirEntry, fileSet: set<string>, sep: char) returns (entry: CatalogEntry, missing: bool)
    requires IsModelFile(file) && IsSeparator(sep) && IsEntryName(file.name, sep)
    ensures entry == EntryFor(file, fileSet, sep)
    ensures missing <==> entry.thumbnailPath.None?
  {
    var ext := Extname(file.name);
    var baseName := Basename(file.name, ext);
    var thumbnail := FindThumbnail(baseName, fileSet);
    entry := EntryFor(file, fileSet, sep);
    assert entry.id == baseName;
    missing := thumbnail.None?;
  }

  /** Extending the listing by one file extends the entries by that file's entry, if any. */
  lemma ModelEntriesSnoc(files: seq<DirEntry>, f: DirEntry, fileSet: set<string>, sep: char)
    requires IsSeparator(sep) && EntryNames(files + [f], sep)
    ensures EntryNames(files, sep)
    ensures ModelEntries(files + [f], fileSet, sep)
      == ModelEntries(files, fileSet, sep) + (if IsModelFile(f) then [EntryFor(f, fileSet, sep)] else [])
  {
    assert (files + [f])[..|files|] == files;
    assert forall g :: g in files ==> g in files + [f];
  }

  /** Appending one entry appends its warning, if it lacks a thumbnail. */
  lemma WarningsSnoc(entries: seq<CatalogEntry>, e: CatalogEntry)
    ensures MissingThumbnailWarnings(entries + [e])
      == MissingThumbnailWarnings(entries) + (if e.thumbnailPath.None? then [MissingThumbnailWarning(e.fileName)] else [])
  {
    assert (entries + [e])[..|entries|] == entries;
  }

  /** The loop over the regular files: the unsorted entries and the warnings. */
  method CollectModels(files: seq<DirEntry>, fileSet: set<string>, sep: char)
    returns (models: seq<CatalogEntry>, warnings: seq<string>)
    requires IsSeparator(sep) && EntryNames(files, sep)
    ensures models == ModelEntries(files, fileSet, sep)
    ensures warnings == MissingThumbnailWarnings(models)
  {
    models, warnings := [], [];
    for i := 0 to |files|
      invariant models == ModelEntries(files[..i], fileSet, sep)
      invariant warnings == MissingThumbnailWarnings(models)
    {
      var file := files[i];
      assert files[..i + 1] == files[..i] + [file];
      assert EntryNames(files[..i + 1], sep) by {
        forall g | g in files[..i + 1] ensures IsEntryName(g.name, sep) {
          assert g in files;
        }
      }
      ModelEntriesSnoc(files[..i], file, fileSet, sep);
      if file.kind == RegularFile && Lower(Extname(file.name)) == ModelExtension {
        var entry, missing := BuildEntry(file, fileSet, sep);
        WarningsSnoc(models, entry);
        if missing {
          warnings := warnings + [MissingThumbnailWarning(file.name)];
        }
        models := models + [entry];
      }
    }
    assert files[..|files|] == files;
  }

  /**
   * `buildManifest`: a missing or unreadable directory is an error as
   * `safeReadDir` reports it; otherwise the items are the entries of the
   * model files, sorted by display name, `total` is their number, and one
   * warning is logged per model without a thumbnail.
   */
  method BuildManifest(modelDir: string, listing: Result<seq<DirEntry>, IoError>, sep: char, collate: (string, string) -> int)
    returns (result: Result<Catalog, IoError>, warnings: seq<string>)
    requires IsSeparator(sep) && SignAntisymmetric(collate)
    requires listing.Success? ==> EntryNames(listing.value, sep)
    ensures listing.Failure? ==> result == Failure(SafeReadDir(modelDir, listing).error) && warnings == []
    ensures listing.Success? ==>
      var files := RegularFiles(listing.value);
      var unsorted := ModelEntries(files, NameSet(files), sep);
      && result.Success?
      && multiset(result.value.items) == multiset(unsorted)
      && SortedByName(result.value.items, collate)
      && result.value.total == |result.value.items|
      && warnings == MissingThumbnailWarnings(unsorted)
  {
    var dirEntries := SafeReadDir(modelDir, listing);
    if dirEntries.Failure? {
      return Failure(dirEntries.error), [];
    }
    var files := RegularFiles(dirEntries.value);
    assert EntryNames(files, sep);
    var models;
    models, warnings := CollectModels(files, NameSet(files), sep);
    var a := new CatalogEntry[|models|](k requires 0 <= k < |models| => models[k]);
    assert a[..] == models;
    SortByDisplayName(a, collate);
    result := Success(Catalog(a.Length, a[..]));
  }
}
