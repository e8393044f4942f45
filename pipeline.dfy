/**
 * The two halves together: the catalog the manifest builder writes, read
 * back by the gallery page. Every published entry has a USDZ path and,
 * since the builder never pairs a GLB with it, no Android path; what the
 * page then offers follows from that on every platform.
 */
module Pipeline {
  import opened Wrappers
  import opened NodePath
  import opened UrlEncoding
  import opened Manifest
  import opened PageItem
  import opened DisplayName
  import opened Environment
  import opened ArLaunch
  import opened Gallery

  /** An entry as the page reads it back from the JSON file (`null` thumbnail read as missing). */
  function Published(e: CatalogEntry): (item: Item)
    ensures item.modelPath == Str(e.modelPath) && item.androidModelPath.Absent?
    ensures item.id == Str(e.id) && item.displayName == Str(e.displayName) && item.fileName == Str(e.fileName)
    ensures item.thumbnailPath.Absent? <==> e.thumbnailPath.None?
  {
    Item(
      Str(e.id),
      Str(e.displayName),
      Str(e.fileName),
      Str(e.modelPath),
      Absent,
      if e.thumbnailPath.Some? then Str(e.thumbnailPath.value) else Absent)
  }

  /** Every item of a built catalog is the entry of a model file, so its model path is "model/<file name>". */
  lemma {:induction false} CatalogItemPaths(files: seq<DirEntry>, sep: char, items: seq<CatalogEntry>, e: CatalogEntry)
    requires IsSeparator(sep) && EntryNames(files, sep)
    requires multiset(items) == multiset(ModelEntries(files, NameSet(files), sep))
    requires e in items
    ensures e.modelPath == ModelDir + "/" + e.fileName
    ensures e.fileName != "" && Truthy(Published(e).modelPath)
  {
    assert e in multiset(items);
    assert e in ModelEntries(files, NameSet(files), sep);
    EntriesComeFromModelFiles(files, NameSet(files), sep, e);
  }

  /**
   * The name on a published entry's card is its display name, or its id when
   * prettifying left nothing (a file named "-.usdz", say); it is never empty.
   */
  lemma PublishedLabel(files: seq<DirEntry>, sep: char, items: seq<CatalogEntry>, e: CatalogEntry)
    requires IsSeparator(sep) && EntryNames(files, sep)
    requires multiset(items) == multiset(ModelEntries(files, NameSet(files), sep))
    requires e in items
    ensures e.displayName == PrettifyName(e.id)
    ensures DisplayLabel(Published(e)) == (if e.displayName != "" then e.displayName else e.id)
    ensures DisplayLabel(Published(e)) != ""
  {
    assert e in multiset(items);
    assert e in ModelEntries(files, NameSet(files), sep);
    EntriesComeFromModelFiles(files, NameSet(files), sep, e);
  }

  /** A published entry is badged as USDZ-only. */
  lemma PublishedBadge(e: CatalogEntry)
    requires e.modelPath == ModelDir + "/" + e.fileName
    ensures PlatformBadges(Published(e)) == [IosOnly]
  {
  }

  /**
   * On iOS a published entry can be opened exactly when the browser has
   * Quick Look, and then the button links to the encoded "model/<file>".
   */
  lemma PublishedOnIos(e: CatalogEntry, env: Env)
    requires e.modelPath == ModelDir + "/" + e.fileName
    requires env.isIOS
    ensures GetArAvailability(Published(e), env).available <==> env.supportsQuickLook
    ensures env.supportsQuickLook ==>
      GetArAvailability(Published(e), env).fallbackHref == Some(EncodeUri(ModelDir + "/" + e.fileName))
  {
  }

  /** On Android no published entry can be opened: there is never a GLB. */
  lemma PublishedOnAndroid(e: CatalogEntry, env: Env, title: string, pageHref: string, resolve: (string, string) -> string)
    requires !env.isIOS && env.isAndroid
    ensures !GetArAvailability(Published(e), env).available
    ensures GetArAvailability(Published(e), env).caption == NoGlbLabel
    ensures HandleArLaunch(Published(e), env, title, pageHref, resolve) == Warn(NoGlbStatus)
  {
  }

  /** Elsewhere a published entry is offered for download and the button opens the USDZ in a new tab. */
  lemma PublishedElsewhere(e: CatalogEntry, env: Env, title: string, pageHref: string, resolve: (string, string) -> string)
    requires e.modelPath == ModelDir + "/" + e.fileName
    requires !env.isIOS && !env.isAndroid
    ensures GetArAvailability(Published(e), env).available
    ensures HandleArLaunch(Published(e), env, title, pageHref, resolve) == OpenWindow(ModelDir + "/" + e.fileName, "_blank", "noopener")
  {
  }
}
