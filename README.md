# WaytoAR core in Dafny

WaytoAR publishes a gallery of 3D models. A visitor's device is sent to the AR
viewer of its platform: Apple Quick Look for a USDZ file on iOS, or Google
Scene Viewer for a GLB file on Android. This project models the two pieces of
the repository that carry real logic, and proves properties of them.

- **The manifest builder** (`scripts/generate-model-manifest.mjs`). It takes a
  listing of the `model` directory and builds the catalog:
  - it keeps the regular files whose extension is `.usdz` in any letter case;
  - each kept file gets an id, a display name (`prettifyName`), a POSIX model
    path and a thumbnail chosen by a fixed extension priority;
  - the entries are sorted in place by display name;
  - the catalog is wrapped with `total`;
  - a warning is logged for every model without a thumbnail;
  - a missing directory becomes a "folder not found" error.

  Modules: `Manifest` (`manifest.dfy`), `NodePath` (`node_path.dfy`: the
  `path` functions used on entry names), `DisplayName` (`display_name.dfy`)
  and `Text` (`text.dfy`: ASCII case mapping, JavaScript white space and
  `trim`, substring search).
  - `buildManifest` is imperative: a loop collects the entries (`CollectModels`)
    and an insertion sort on an `array` orders them (`SortByDisplayName`).
  - `findThumbnail` is a loop with an early return.
  - Everything else is functions.

- **The AR capability resolver and launch dispatcher** (`assets/js/main.js`).
  - `Environment` (`environment.dfy`): the user-agent flags and the status hint.
  - `ArLaunch` (`ar_launch.dfy`): the availability decision table, the launch
    actions and the Scene Viewer intent URI.
  - `UrlEncoding` (`url_encoding.dfy`): the percent-encodings those use.
  - `PageItem` (`page_item.dfy`): items as the page reads them. A field may be
    missing or a string.
  - `Gallery` (`gallery.dfy`): the small page helpers, which are badges,
    initials, `escapeCss` and the search filter. It also holds the page state
    as a class, `Session`, with the loaded items and the one-shot pending focus.

- **`Pipeline`** (`pipeline.dfy`) connects the two: it states what the page
  offers, on each platform, for the entries the builder writes.

The inputs the code takes from outside are parameters of the model:
- the directory listing with file kinds and sizes (the result of `readdir`/`stat`);
- the platform path separator;
- the `localeCompare` collation, a function required only to flip its sign
  when its arguments are swapped;
- the page address;
- the resolution done by `new URL(path, base)`;
- the browser's `CSS.escape`, when present;
- the outcome of fetching and parsing `data/models.json`.

Navigation (`window.location.href = …`, `window.open`) is returned as an
`Action` value, and a status-bar warning as `Warn`.

Two facts about the code shape what the model shows:
- The manifest builder never pairs a `.glb` file with a model. It emits no
  `androidModelPath` and no `variants`, and a lone `.glb` file yields no entry
  at all. `Pipeline.PublishedOnAndroid` shows the consequence: on Android no
  published model can be opened.
- `URLSearchParams` serializes the `file=` value with the form encoding, which
  percent-encodes ':' and '/', so `file=` holds `https%3A%2F%2F…`.

## Model

| member | source | states |
|---|---|---|
| `Manifest.SafeReadDir` | scripts/generate-model-manifest.mjs:63-72 | A successful listing passes through. An ENOENT failure becomes an error with no code whose message is "找不到模型資料夾：" followed by the path. Any other failure passes through unchanged. |
| `Manifest.FloorLog1024` | scripts/generate-model-manifest.mjs:87 | The exponent k satisfies 1024^k ≤ bytes < 1024^(k+1). |
| `Manifest.FormatFileSize` | scripts/generate-model-manifest.mjs:84-89 | Zero bytes gives "0 B". Otherwise the unit index is at most 3 (GB) and 1024^e ≤ bytes, and below GB also bytes < 1024^(e+1). One decimal is shown exactly when e > 0 and the scaled value is below 10. |
| `Manifest.UnitIsLargestFitting` | scripts/generate-model-manifest.mjs:86-87 | Every unit e ≤ 3 with 1024^e ≤ bytes is at most the chosen one, so the chosen unit is the largest that fits. |
| `Manifest.FirstThumbnailIsFirstPresent` | scripts/generate-model-manifest.mjs:74-82 | There is no thumbnail exactly when no candidate `baseName + ext` is listed. Otherwise the thumbnail is the candidate of the first listed extension in priority order. |
| `Manifest.JpgBeatsPng` | scripts/generate-model-manifest.mjs:74-82 | When both `x.jpg` and `x.png` exist, `x.jpg` is chosen. |
| `Manifest.FindThumbnail` | scripts/generate-model-manifest.mjs:74-82 | The loop with early return yields the first present candidate in priority order. |
| `Manifest.ModelExtensionShape` | scripts/generate-model-manifest.mjs:28 | Any text that lower-cases to ".usdz" has five characters, starts with '.', and holds no other dot. |
| `Manifest.ModelFileByName` | scripts/generate-model-manifest.mjs:28 | For a regular file, `extname(name).toLowerCase() === '.usdz'` holds exactly when the name is longer than ".usdz" and its last five characters lower-case to ".usdz". |
| `Manifest.RegularFiles` | scripts/generate-model-manifest.mjs:22 | Exactly the regular files of the listing are kept. |
| `Manifest.RegularFilesSingle` | scripts/generate-model-manifest.mjs:22 | A one-entry listing keeps its entry exactly when it is a regular file. |
| `Manifest.RegularFilesAppend` | scripts/generate-model-manifest.mjs:22 | The regular files of `a + b` are those of `a` followed by those of `b`. With `RegularFilesSingle` this fixes their order and count: listing order, each once. |
| `Manifest.ModelPathFor` | scripts/generate-model-manifest.mjs:44 | The model path is "model/" + file name on every platform separator. |
| `Manifest.ThumbnailPathFor` | scripts/generate-model-manifest.mjs:45 | The path is null exactly when no thumbnail is found, and otherwise "model/" + the thumbnail's name. |
| `Manifest.EntryFor` | scripts/generate-model-manifest.mjs:30-51 | The id is non-empty and id + extension is the file name. The display name is the prettified id and the model path is "model/<file>". The thumbnail is as chosen, and the size record holds the byte count and its formatted size. |
| `Manifest.EntryCount` | scripts/generate-model-manifest.mjs:27-52 | The loop pushes exactly one entry per model file. |
| `Manifest.ModelFiles` | scripts/generate-model-manifest.mjs:27-28 | The files the loop does not skip: exactly the model files of the listing. |
| `Manifest.ModelFilesSingle` | scripts/generate-model-manifest.mjs:28 | A one-file listing keeps its file exactly when it is a model file. |
| `Manifest.ModelFilesAppend` | scripts/generate-model-manifest.mjs:27-28 | The model files of `a + b` are those of `a` followed by those of `b`, so they come in listing order, each once. |
| `Manifest.EntryAt` | scripts/generate-model-manifest.mjs:27-52 | The k-th pushed entry is the entry built from the k-th model file of the listing. `ModelEntries` stands for the sequence the loop pushes to `models`. |
| `Manifest.OneEntryPerModelFile` | scripts/generate-model-manifest.mjs:27-52 | There are as many entries as model files, and the k-th entry is built from the k-th model file. |
| `Manifest.EntriesComeFromModelFiles` | scripts/generate-model-manifest.mjs:27-52 | Every entry is the entry of some regular `.usdz` file of the listing. |
| `Manifest.WarningsAreMissingThumbnails` | scripts/generate-model-manifest.mjs:34-38 | A warning is logged for an entry exactly when its thumbnail is null. `MissingThumbnailWarning` is the text of line 37. |
| `Manifest.WarningsSnoc` | scripts/generate-model-manifest.mjs:36-38 | Pushing one more entry appends its warning, if it has no thumbnail, after the earlier ones: warnings come in entry order. |
| `Manifest.SortedIsPairwise` | scripts/generate-model-manifest.mjs:54 | For a collation whose "not after" is transitive, ordered neighbours mean every pair is ordered. |
| `Manifest.SortByDisplayName` | scripts/generate-model-manifest.mjs:54 | The in-place sort leaves the array ordered by display name and a permutation of what it was. |
| `Manifest.BuildEntry` | scripts/generate-model-manifest.mjs:30-51 | One loop iteration builds the file's entry and reports a warning exactly when the entry has no thumbnail. |
| `Manifest.CollectModels` | scripts/generate-model-manifest.mjs:25-52 | The loop yields the entries of the model files in listing order and one warning per entry without a thumbnail. Thumbnails are looked up in `NameSet`, the `new Set(fileNames)` of line 23. |
| `Manifest.BuildManifest` | scripts/generate-model-manifest.mjs:20-61 | A read failure is reported as `safeReadDir` maps it, with no warnings. Otherwise the items are a permutation of the model entries, sorted by display name, with `total` equal to their number. |
| `NodePath.Extname` | scripts/generate-model-manifest.mjs:28 | The extension is empty exactly for "..", or when no dot follows the first character. Otherwise it is a proper suffix that starts at the last dot. |
| `NodePath.ExtnameOfSuffix` | scripts/generate-model-manifest.mjs:28 | A name other than ".." that ends, after at least one character, in a dot followed by no other dot has exactly that piece as its extension. |
| `NodePath.Basename` | scripts/generate-model-manifest.mjs:30 | A proper, non-empty suffix is removed. A suffix equal to the whole name gives "". Any other suffix leaves the name unchanged. |
| `NodePath.StemPlusExtension` | scripts/generate-model-manifest.mjs:30 | The stem + the extension gives back the name, and a real extension leaves a non-empty stem. |
| `NodePath.ToPosix` | scripts/generate-model-manifest.mjs:100-102 | Every platform separator becomes '/' and every other character is kept. |
| `NodePath.PosixJoin` | scripts/generate-model-manifest.mjs:31 | The POSIX form of `join(dir, name)` is `dir/name` on both separators. `Join` stands for `path.join` of a directory and a single entry name. |
| `DisplayName.DashRunsToSpace` | scripts/generate-model-manifest.mjs:94 | The result has no '-' or '_', and a string without them is unchanged. |
| `DisplayName.DashRunsKeepText` | scripts/generate-model-manifest.mjs:94 | Replacing runs of '-' and '_' keeps every character other than white space, '-' and '_', in order. |
| `DisplayName.CollapseWhite` | scripts/generate-model-manifest.mjs:95 | Every white space in the result is a single plain space and no '-' or '_' is introduced. A string already of that shape is unchanged. |
| `DisplayName.CollapseWhiteKeepsText` | scripts/generate-model-manifest.mjs:95 | Collapsing white space keeps every character other than white space, '-' and '_', in order. |
| `DisplayName.PassesOneAndTwo` | scripts/generate-model-manifest.mjs:94-95 | The two passes together turn every maximal run of white space, '-' and '_' into exactly one space and copy every other character. |
| `DisplayName.SqueezedWords` | scripts/generate-model-manifest.mjs:95-96 | After the runs are squeezed, cutting the trailing space leaves the words of the name (its maximal runs of other characters) joined by single spaces. |
| `DisplayName.NormalizedIsUnwords` | scripts/generate-model-manifest.mjs:94-96 | Passes 1 to 3 give exactly the words of the name joined by single spaces. |
| `DisplayName.PrettifyByWords` | scripts/generate-model-manifest.mjs:92-98 | The display name is the words of the stem joined by single spaces, with every `\b\w` position upper-cased. |
| `DisplayName.CapitalizeWords` | scripts/generate-model-manifest.mjs:97 | Exactly the characters at a `\b\w` position are upper-cased, and everything else is kept. |
| `DisplayName.PrettifyName` | scripts/generate-model-manifest.mjs:92-98 | The result has no '-' or '_', no two adjacent white spaces and none at either end, and no word-initial lower-case ASCII letter. |
| `DisplayName.DashBecomesSpace` | scripts/generate-model-manifest.mjs:92-98 | A dash between two word characters x and y gives "X Y", the two upper-cased with one space between them (for instance "a-b" becomes "A B"). |
| `DisplayName.WordsEmptyIffAllBreaks` | scripts/generate-model-manifest.mjs:92-98 | A stem has no words exactly when it is made only of white space, '-' and '_'. |
| `DisplayName.PrettifyBlankIffAllBreaks` | scripts/generate-model-manifest.mjs:92-98 | The display name is empty exactly when the stem is made only of white space, '-' and '_', as for a file named "-.usdz". |
| `DisplayName.PrettifyIdempotent` | scripts/generate-model-manifest.mjs:92-98 | Prettifying twice equals prettifying once. |
| `Text.Trim` | assets/js/main.js:49 | The result is a slice of the input. Everything cut before it and after it is white space, and it neither starts nor ends with white space. |
| `Text.TrimEmptyIffAllWhite` | assets/js/main.js:330-331 | Trimming gives "" exactly when every character is white space. |
| `Text.Lower` | assets/js/main.js:49 | `toLowerCase` keeps the length and lowers each position (ASCII letters only, see "Left out"). |
| `Text.Upper` | assets/js/main.js:332 | `toUpperCase` keeps the length and raises each position (ASCII letters only). |
| `Text.ContainsIffOccurs` | assets/js/main.js:339 | `includes` holds exactly when the pattern occurs at some index. |
| `Environment.DetectEnvironment` | assets/js/main.js:335-353 | Each flag holds exactly when its tokens occur in the lower-cased user agent. `isSafari` implies `isIOS`. Quick Look = iOS ∧ Safari ∧ ¬LINE and Scene Viewer = Android ∧ Chrome ∧ ¬LINE. |
| `Environment.LineDisablesViewers` | assets/js/main.js:340-351 | A "line/" user agent can use neither viewer and is never Safari. |
| `Environment.IosAndAndroidTokens` | assets/js/main.js:338-339 | A user agent naming both an iPad and Android sets both flags. |
| `Environment.GetEnvironmentHint` | assets/js/main.js:355-369 | The four hint texts are chosen in order: LINE on iOS, iOS without Quick Look, LINE on Android, then Android without Scene Viewer. |
| `Environment.HintIffViewerUnavailable` | assets/js/main.js:355-369 | For coherent flags, a hint is shown exactly when (iOS ∧ ¬Quick Look) ∨ (Android ∧ ¬Scene Viewer). |
| `UrlEncoding.Encode` | assets/js/main.js:239 | The output has only kept characters and '%', plus '+' for forms. A string of kept characters is unchanged. |
| `UrlEncoding.EncodeSingle` | assets/js/main.js:239 | One character is kept, written "+" (a space in a form), or written as the percent-escapes of its UTF-8 bytes. |
| `UrlEncoding.EncodeAppend` | assets/js/main.js:239 | Encoding works character by character: encoding `a + b` gives the encoding of `a` followed by that of `b`. |
| `UrlEncoding.ComponentHasNoDelimiters` | assets/js/main.js:267-277 | `encodeURIComponent` and the form encoding never output '&', '=', '#' or ';'. |
| `UrlEncoding.DecodeEncode` | assets/js/main.js:239 | Percent-decoding the encoded text gives the UTF-8 bytes of the original. |
| `UrlEncoding.SplitJoin` | assets/js/main.js:274 | Splitting a join on its separator gives back the pieces, when no piece holds the separator. |
| `UrlEncoding.QuerySplitsIntoPairs` | assets/js/main.js:267-274 | A serialized query splits on '&' into one "name=value" piece per pair, in order. |
| `PageItem.Coalesce` | assets/js/main.js:207 | `a ?? b` is `a` whenever `a` is a string, even an empty one, and `b` only when `a` is missing. |
| `PageItem.DisplayLabel` | assets/js/main.js:89 | The card name is the display name if it is a non-empty string, else the id. It is empty exactly when neither field is a non-empty string. |
| `ArLaunch.GetArAvailability` | assets/js/main.js:162-216 | Available exactly when the platform's asset is truthy and its viewer is supported, with the platform order iOS > Android > other. Available means a link and no hint. The link is encodeURI(modelPath) on iOS, "#" on Android, and encodeURI(modelPath ?? androidModelPath) elsewhere. |
| `ArLaunch.CaptionsAndHints` | assets/js/main.js:162-216 | Gives the caption and tooltip of all ten outcomes. A missing asset shows "缺少 USDZ" or "缺少 GLB" with its hint. An unsupported viewer shows the LINE caption and hint inside LINE and the generic pair otherwise. An available button shows "開啟 AR (iOS)", "開啟 AR (Android)" or "下載模型" with no tooltip. No download target shows "無可用檔案" with "請補上 USDZ 或 GLB。". |
| `ArLaunch.EmptyModelPathHidesGlb` | assets/js/main.js:207-209 | On other platforms an empty `modelPath` is kept by `??`, so the item is unavailable even with a GLB. |
| `ArLaunch.OpenIosQuickLook` | assets/js/main.js:230-240 | Warns exactly when the USDZ is missing or Quick Look is unsupported. Otherwise it navigates to encodeURI(modelPath). |
| `ArLaunch.OpenAndroidSceneViewer` | assets/js/main.js:242-254 | Warns exactly when the GLB is missing or Scene Viewer is unsupported. Otherwise it navigates to the intent URI. |
| `ArLaunch.DownloadTarget` | assets/js/main.js:257 | `modelPath ?? androidModelPath` (also line 207): a present `modelPath` wins even when empty, and the target is truthy exactly when `modelPath` is, or `modelPath` is missing and `androidModelPath` is truthy. |
| `ArLaunch.OpenDefaultDownload` | assets/js/main.js:256-263 | Warns exactly when `modelPath ?? androidModelPath` is falsy. Otherwise it opens that target unencoded in "_blank" with "noopener". |
| `ArLaunch.HandleArLaunch` | assets/js/main.js:218-228 | Dispatches in the order iOS, then Android, then download. |
| `ArLaunch.LaunchAgreesWithAvailability` | assets/js/main.js:162-263 | The button is available exactly when pressing it does not warn. On iOS it navigates to the button's link, on Android to an intent URI, and elsewhere it opens the target whose encoding is the link. |
| `ArLaunch.BuildSceneViewerIntent` | assets/js/main.js:265-278 | The URI is exactly the Scene Viewer prefix, then the query, then `#Intent;scheme=https;package=com.google.ar.core;action=android.intent.action.VIEW;S.browser_fallback_url=`, then encodeURIComponent(page) and `;end;`. The query is `file=<absolute URL>&mode=ar_preferred`, followed by `&title=<title>` for a non-empty title only. Splitting the text up to the first '#' on '&' gives those pieces back. |
| `ArLaunch.IntentPieces` | assets/js/main.js:267-273 | The intent's parameters serialize to the `file`, `mode` and optional `title` pieces, in that order. |
| `Gallery.PlatformBadges` | assets/js/main.js:140-148 | One badge naming exactly the platforms whose asset is present, or none. |
| `Gallery.RenderBadges` | assets/js/main.js:140-160 | The container is hidden and empty exactly when there is no badge, and otherwise holds that badge's markup. `BadgeMarkup` is the `<span>` template of line 158. |
| `Gallery.Initials` | assets/js/main.js:329-333 | A blank name gives "AR". Otherwise the result is the upper-cased first one or two characters of the trimmed name, starting with its first non-white character. |
| `Gallery.EscapeCssFallback` | assets/js/main.js:386 | The output is between one and two times the input's length, and a string of `[a-zA-Z0-9_-]` is unchanged. |
| `Gallery.EscapeCssSingle` | assets/js/main.js:386 | A character of `[a-zA-Z0-9_-]` is kept; any other character is written after a backslash. |
| `Gallery.EscapeCssAppend` | assets/js/main.js:386 | Escaping works character by character: escaping `a + b` gives the escape of `a` followed by that of `b`. |
| `Gallery.EscapeCss` | assets/js/main.js:382-387 | Uses the browser's `CSS.escape` when present and the fallback otherwise. |
| `Gallery.UnescapeEscape` | assets/js/main.js:382-387 | Reading the fallback's escapes back gives the original id. |
| `Gallery.EscapedQuotesArePaired` | assets/js/main.js:373-386 | The escaped id does not start with '"', and every '"' in it follows a backslash. |
| `Gallery.SearchValues` | assets/js/main.js:56-57 | The searched values are exactly the truthy ones among display name, id and file name. |
| `Gallery.Matching` | assets/js/main.js:55-59 | An item is kept exactly when some searched value, lower-cased, contains the keyword. |
| `Gallery.MatchingCounts` | assets/js/main.js:55-59 | A matching item is kept as many times as it occurs, and any other item zero times. |
| `Gallery.MatchingSingle` | assets/js/main.js:55-59 | A one-item list keeps its item exactly when it matches. |
| `Gallery.MatchingAppend` | assets/js/main.js:55-59 | Filtering two lists placed one after the other gives the two filtered lists in the same order. |
| `Gallery.Keyword` | assets/js/main.js:49 | The keyword is empty exactly when the raw text is all white space, and is as long as the trimmed text. |
| `Gallery.FilterItems` | assets/js/main.js:48-62 | A blank keyword shows every item. Otherwise the shown items are those matching the trimmed, lower-cased keyword, in their original order and count. |
| `Gallery.FilterIgnoresCase` | assets/js/main.js:49 | Upper-casing the search text does not change what is shown. |
| `Gallery.Session.constructor` | assets/js/main.js:13-16 | No items yet, and the pending focus is the `model` query parameter or "". |
| `Gallery.Session.Load` | assets/js/main.js:26-46 | A failure leaves items and pending focus unchanged. A success replaces the items, with none when `items` is not an array. It hands out the pending focus once and clears it. |
| `Gallery.Session.ApplyFilter` | assets/js/main.js:48-62 | Shows exactly what `FilterItems` gives for the loaded items. |
| `Pipeline.PublishedLabel` | assets/js/main.js:89 | A built entry's card shows its display name (the prettified id), or its id when prettifying left nothing; the name is never empty. |
| `Pipeline.Published` | scripts/generate-model-manifest.mjs:40-51 | The page reads back a string `modelPath`, no `androidModelPath`, and a thumbnail that is missing exactly when it was null. |
| `Pipeline.CatalogItemPaths` | scripts/generate-model-manifest.mjs:31-44 | Every item of a built catalog has model path "model/<file name>", which is truthy. |
| `Pipeline.PublishedBadge` | assets/js/main.js:140-148 | A published entry is badged "iOS / USDZ". |
| `Pipeline.PublishedOnIos` | assets/js/main.js:163-183 | On iOS a published entry is available exactly when Quick Look is supported, with link encodeURI("model/<file>"). |
| `Pipeline.PublishedOnAndroid` | assets/js/main.js:185-192 | On Android a published entry is never available: it shows "缺少 GLB", and pressing it only warns. |
| `Pipeline.PublishedElsewhere` | assets/js/main.js:207-215 | Elsewhere a published entry is available and opens "model/<file>" in a new tab. |

## Left out

- File-system I/O is not modelled:
  - `readdir`, `stat`, `mkdir` and `writeFile` are outside the model; the listing and the file sizes are inputs;
  - `JSON.stringify` is not modelled;
  - the console message after writing is not modelled;
  - neither is `process.exitCode`.
- The `generatedAt` and `updatedAt` timestamps and `formatDate` are left out. They are clock and locale library calls.
- `Manifest.FormatFileSize` models only the unit exponent and the number of
  decimals. The floating-point division and `toFixed` rounding are not modelled.
  The exponent is the exact integer floor of log base 1024, where the source
  computes it with `Math.log` in floating point.
- `Manifest.SortByDisplayName` does not state that the sort is stable. The
  modelled insertion sort is stable, like JavaScript's `sort`, but only
  sortedness and permutation are proved. `localeCompare`'s stroke-order
  collation is a parameter.
- `Gallery.FilterItems` ignores case only for ASCII letters: the search text and the item text are lower-cased by `Text.Lower`, so 'É' and 'é' do not match as they would in JavaScript.
- `Gallery.UnescapeEscape` reads every escape as the character after the backslash. CSS reads a backslash before a line break ('\n', '\r', '\f') inside a quoted value as a line continuation, so ids that hold line breaks are not covered. (A backslash before a hex digit would start a code-point escape; by `Gallery.EscapeCssSingle` the fallback never adds one there.)
- Catalog items are modelled with string-or-missing fields, as the manifest builder writes them. The page does not check this; a field of another type, such as a number, would make its `toLowerCase` calls throw. That case is not modelled.
- `Text.Lower` and `Text.Upper` map only ASCII letters:
  - The source's Unicode `toLowerCase` agrees on every comparison the core
    makes against its fixed ASCII patterns. Only 'İ' (lower-cased to "i" and
    U+0307) and the Kelvin sign (lower-cased to 'k') gain an ASCII letter, and
    neither can complete a match of any pattern.
  - `Gallery.Initials` upper-cases only ASCII letters. Characters such as 'ß'
    upper-case to two letters in JavaScript.
- `Gallery.EscapeCssFallback` escapes whole code points. The source's regular
  expression has no `u` flag, so it escapes each UTF-16 half of a character
  above U+FFFF separately. A Dafny `char` cannot hold a lone surrogate, so
  `encodeURI`'s `URIError` on one cannot arise either.
- The browser's `CSS.escape`, `new URL` resolution (including its errors) and
  `localeCompare` are parameters. Their behaviour is not modelled.
- The page's DOM work is left out. This covers `renderGrid`, `createCard`,
  `configureArButton`, `focusModel`'s scrolling and highlighting, and the
  status-bar texts that print counts and dates.
- `Gallery.Session.Load` does not model the fetch with its cache-busting query
  or the HTTP status check. These and JSON parsing are folded into the
  success/failure input.
- `buildShareUrl`, `copyLink` and `flashButton` are left out. They are
  clipboard, timer and URL-object I/O.
- `Environment.DetectEnvironment` models `navigator.userAgent || ''` as a plain
  string input.
- `Pipeline.Published` ignores the `size` and `updatedAt` fields the page only
  prints.
