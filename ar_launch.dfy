/**
 * The AR button of a card: whether AR can be offered for an item in the
 * detected browser (`getArAvailability`), what pressing the button does
 * (`handleArLaunch` and the three `open*` functions), and the Android
 * Scene Viewer intent URI (`buildSceneViewerIntent`).
 *
 * All three decide on the same platform order: iOS first, then Android,
 * then every other browser. Navigation is returned as an `Action` value;
 * the page's address (`window.location.href`) and the URL resolution of
 * `new URL(path, base)` are parameters.
 */
module ArLaunch {
  import opened Wrappers
  import opened Text
  import opened UrlEncoding
  import opened Environment
  import opened PageItem

  /** What the button shows: usable or not, its text, its tooltip and its `href`. */
  datatype Availability = Availability(available: bool, caption: string, hint: Option<string>, fallbackHref: Option<string>)

  const NoUsdzLabel := "缺少 USDZ"
  const NoUsdzHint := "請在 model/ 放入同名 .usdz 才能在 iOS 開啟。"
  const LineIosLabel := "請於 Safari 開啟"
  const NoQuickLookLabel := "不支援 Quick Look"
  const LineIosButtonHint := "LINE 內建瀏覽器無法啟動 AR，請點右上角以 Safari 開啟。"
  const NoQuickLookHint := "請改用 Safari，以啟動 Apple Quick Look。"
  const IosLabel := "開啟 AR (iOS)"
  const NoGlbLabel := "缺少 GLB"
  const NoGlbHint := "請提供同名 .glb 以支援 Android Scene Viewer。"
  const LineAndroidLabel := "請用 Chrome 開啟"
  const NoSceneViewerLabel := "瀏覽器不支援 AR"
  const LineAndroidButtonHint := "LINE 內建瀏覽器無法開啟 Scene Viewer，請右上角改用 Chrome。"
  const NoSceneViewerHint := "請使用 Android Chrome（支援 ARCore）開啟。"
  const AndroidLabel := "開啟 AR (Android)"
  const NoFileLabel := "無可用檔案"
  const NoFileHint := "請補上 USDZ 或 GLB。"
  const DownloadLabel := "下載模型"

  /** The file another browser downloads: `modelPath ?? androidModelPath`. */
  function DownloadTarget(item: Item): (target: Field)
    ensures Truthy(target) <==> Truthy(item.modelPath) || (item.modelPath.Absent? && Truthy(item.androidModelPath))
    ensures item.modelPath.Str? ==> target == item.modelPath
  {
    Coalesce(item.modelPath, item.androidModelPath)
  }

  /** The asset the viewer of the detected platform needs is present and the viewer can run. */
  predicate CanLaunch(item: Item, env: Env) {
    if env.isIOS then Truthy(item.modelPath) && env.supportsQuickLook
    else if env.isAndroid then Truthy(item.androidModelPath) && env.supportsSceneViewer
    else Truthy(DownloadTarget(item))
  }

  /**
   * `getArAvailability`: available exactly when the platform's asset and
   * viewer are there; an available button has a link and no tooltip, an
   * unavailable one a tooltip and no link. On iOS the link is the encoded
   * USDZ path, on Android a placeholder ("#"), elsewhere the encoded download
   * target. A user agent that is both iOS and Android is handled as iOS.
   */
  function GetArAvailability(item: Item, env: Env): (a: Availability)
    ensures a.available <==> CanLaunch(item, env)
    ensures a.available <==> a.fallbackHref.Some?
    ensures a.available <==> a.hint.None?
    ensures env.isIOS && a.available ==> a.fallbackHref.value == EncodeUri(item.modelPath.value)
    ensures !env.isIOS && env.isAndroid && a.available ==> a.fallbackHref.value == "#"
    ensures !env.isIOS && !env.isAndroid && a.available ==> a.fallbackHref.value == EncodeUri(DownloadTarget(item).value)
  {
    if env.isIOS then
      if !Truthy(item.modelPath) then
        Availability(false, NoUsdzLabel, Some(NoUsdzHint), None)
      else if !env.supportsQuickLook then
        var caption := if env.isLine then LineIosLabel else NoQuickLookLabel;
        var hint := if env.isLine then LineIosButtonHint else NoQuickLookHint;
        Availability(false, caption, Some(hint), None)
      else
        Availability(true, IosLabel, None, Some(EncodeUri(item.modelPath.value)))
    else if env.isAndroid then
      if !Truthy(item.androidModelPath) then
        Availability(false, NoGlbLabel, Some(NoGlbHint), None)
      else if !env.supportsSceneViewer then
        var caption := if env.isLine then LineAndroidLabel else NoSceneViewerLabel;
        var hint := if env.isLine then LineAndroidButtonHint else NoSceneViewerHint;
        Availability(false, caption, Some(hint), None)
      else
        Availability(true, AndroidLabel, None, Some("#"))
    else
      var fallbackPath := DownloadTarget(item);
      if !Truthy(fallbackPath) then
        Availability(false, NoFileLabel, Some(NoFileHint), None)
      else
        Availability(true, DownloadLabel, None, Some(EncodeUri(fallbackPath.value)))
  }

  /**
   * The text of the button and its tooltip for every row of the decision
   * table. Where the viewer cannot run, a LINE user agent is asked to switch
   * to the platform's own browser (Safari or Chrome) and any other one gets
   * the generic refusal.
   */
  lemma CaptionsAndHints(item: Item, env: Env)
    ensures var a := GetArAvailability(item, env);
      && (env.isIOS && !Truthy(item.modelPath) ==>
            a.caption == NoUsdzLabel && a.hint == Some(NoUsdzHint))
      && (env.isIOS && Truthy(item.modelPath) && !env.supportsQuickLook && env.isLine ==>
            a.caption == LineIosLabel && a.hint == Some(LineIosButtonHint))
      && (env.isIOS && Truthy(item.modelPath) && !env.supportsQuickLook && !env.isLine ==>
            a.caption == NoQuickLookLabel && a.hint == Some(NoQuickLookHint))
      && (env.isIOS && Truthy(item.modelPath) && env.supportsQuickLook ==>
            a.caption == IosLabel && a.hint == None)
    ensures var a := GetArAvailability(item, env);
      && (!env.isIOS && env.isAndroid && !Truthy(item.androidModelPath) ==>
            a.caption == NoGlbLabel && a.hint == Some(NoGlbHint))
      && (!env.isIOS && env.isAndroid && Truthy(item.androidModelPath) && !env.supportsSceneViewer && env.isLine ==>
            a.caption == LineAndroidLabel && a.hint == Some(LineAndroidButtonHint))
      && (!env.isIOS && env.isAndroid && Truthy(item.androidModelPath) && !env.supportsSceneViewer && !env.isLine ==>
            a.caption == NoSceneViewerLabel && a.hint == Some(NoSceneViewerHint))
      && (!env.isIOS && env.isAndroid && Truthy(item.androidModelPath) && env.supportsSceneViewer ==>
            a.caption == AndroidLabel && a.hint == None)
    ensures var a := GetArAvailability(item, env);
      && (!env.isIOS && !env.isAndroid && !Truthy(DownloadTarget(item)) ==>
            a.caption == NoFileLabel && a.hint == Some(NoFileHint))
      && (!env.isIOS && !env.isAndroid && Truthy(DownloadTarget(item)) ==>
            a.caption == DownloadLabel && a.hint == None)
  {
  }

  /** An empty `modelPath` is not missing: `??` keeps it, so a GLB beside it is not offered for download. */
  lemma EmptyModelPathHidesGlb(item: Item, env: Env)
    requires !env.isIOS && !env.isAndroid
    requires item.modelPath == Str("") && Truthy(item.androidModelPath)
    ensures !GetArAvailability(item, env).available
  {
  }

  // ------------------------------------------------------------ launching

  /** What pressing the button does: go to a URL, open one in a new tab, or only show a warning. */
  datatype Action =
    | Navigate(url: string)
    | OpenWindow(url: string, target: string, features: string)
    | Warn(status: string)

  const NoUsdzStatus := "此模型尚無 USDZ 檔案，無法在 iOS 開啟。"
  const NoQuickLookStatus := "請改用 Safari 或從 LINE 右上角以瀏覽器開啟後再試一次。"
  const NoGlbStatus := "此模型尚無 GLB 檔案，無法在 Android 啟動 AR。"
  const NoSceneViewerStatus := "此瀏覽器不支援 ARCore Scene Viewer，請改用 Android Chrome。"
  const NoDownloadStatus := "暫無可下載的模型檔案。"

  /** `openIosQuickLook`: opens the encoded USDZ path, which Safari hands to Quick Look. */
  function OpenIosQuickLook(item: Item, env: Env): (action: Action)
    ensures action.Warn? <==> !Truthy(item.modelPath) || !env.supportsQuickLook
    ensures !action.Warn? ==> action == Navigate(EncodeUri(item.modelPath.value))
  {
    if !Truthy(item.modelPath) then Warn(NoUsdzStatus)
    else if !env.supportsQuickLook then Warn(NoQuickLookStatus)
    else Navigate(EncodeUri(item.modelPath.value))
  }

  const IntentPrefix := "intent://arvr.google.com/scene-viewer/1.0?"
  /** The fragment up to the fallback address. */
  const IntentHead := "#" + IntentSpec
  const IntentSpec := "Intent;scheme=https;package=com.google.ar.core;action=android.intent.action.VIEW"
  const FallbackKey := ";S.browser_fallback_url="
  const IntentEnd := ";end;"

  /** The query parameters of the intent, in the order they are set. */
  function IntentParams(absoluteUrl: string, title: string): seq<Param> {
    [Param("file", absoluteUrl), Param("mode", "ar_preferred")]
      + (if title != "" then [Param("title", title)] else [])
  }

  /**
   * `buildSceneViewerIntent`: the model's absolute URL goes into `file`,
   * then `mode=ar_preferred`, then `title` only for a non-empty title; the
   * query runs up to the first '#', and the page's own address, encoded as a
   * component, is the browser fallback at the end.
   */
  function BuildSceneViewerIntent(modelPath: string, title: string, pageHref: string, resolve: (string, string) -> string): (url: string)
    ensures url == IntentPrefix
      + JoinWith('&', ["file=" + FormEncode(resolve(modelPath, pageHref)), "mode=ar_preferred"]
          + (if title != "" then ["title=" + FormEncode(title)] else []))
      + IntentHead + (FallbackKey + EncodeUriComponent(pageHref) + IntentEnd)
    ensures |IntentPrefix| <= |url| && url[..|IntentPrefix|] == IntentPrefix
    ensures SplitOn(TakeUntil(url[|IntentPrefix|..], '#'), '&') ==
      ["file=" + FormEncode(resolve(modelPath, pageHref)), "mode=ar_preferred"]
        + (if title != "" then ["title=" + FormEncode(title)] else [])
    ensures var tail := FallbackKey + EncodeUriComponent(pageHref) + IntentEnd;
      |tail| <= |url| && url[|url| - |tail|..] == tail
  {
    var params := IntentParams(resolve(modelPath, pageHref), title);
    var tail := FallbackKey + EncodeUriComponent(pageHref) + IntentEnd;
    assert IntentHead[0] == '#';
    IntentUrlFacts(IntentPrefix, params, IntentHead, tail);
    IntentPieces(resolve(modelPath, pageHref), title);
    var query := SerializeQuery(params);
    assert query == JoinWith('&', ["file=" + FormEncode(resolve(modelPath, pageHref)), "mode=ar_preferred"]
      + (if title != "" then ["title=" + FormEncode(title)] else []));
    IntentPrefix + query + IntentHead + tail
  }

  /** The query of an intent URI is found between its prefix and the first '#', and splits into the serialized pairs. */
  lemma IntentUrlFacts(prefix: string, params: seq<Param>, head: string, tail: string)
    requires params != [] && head != [] && head[0] == '#'
    ensures var url := prefix + SerializeQuery(params) + head + tail;
      && url[..|prefix|] == prefix
      && SplitOn(TakeUntil(url[|prefix|..], '#'), '&') == SerializedParams(params)
      && url[|url| - |tail|..] == tail
  {
    NoHashInQuery(params);
    QuerySplitsIntoPairs(params);
    IntentLayout(prefix, SerializeQuery(params), head, tail);
  }

  /** How the pieces of an intent URI are found again in it. */
  lemma IntentLayout(prefix: string, query: string, head: string, tail: string)
    requires '#' !in query && head != [] && head[0] == '#'
    ensures var url := prefix + query + head + tail;
      && url[..|prefix|] == prefix
      && TakeUntil(url[|prefix|..], '#') == query
      && url[|url| - |tail|..] == tail
  {
    var url := prefix + query + head + tail;
    assert url[..|prefix|] == prefix;
    assert url[|prefix|..] == query + ['#'] + (head[1..] + tail);
    TakeUntilDelimited(query, '#', head[1..] + tail);
    assert url[|url| - |tail|..] == tail;
  }

  lemma {:induction false} NoHashInQuery(params: seq<Param>)
    ensures '#' !in SerializeQuery(params)
  {
    var pieces := SerializedParams(params);
    forall k | 0 <= k < |pieces| ensures '#' !in pieces[k] {
      ComponentHasNoDelimiters(FormUrlEncoded, params[k].name);
      ComponentHasNoDelimiters(FormUrlEncoded, params[k].value);
    }
    NoCharInJoin('&', '#', pieces);
  }

  lemma {:induction false} NoCharInJoin(sep: char, c: char, parts: seq<string>)
    requires c != sep
    requires forall k :: 0 <= k < |parts| ==> c !in parts[k]
    ensures c !in JoinWith(sep, parts)
  {
    if |parts| > 1 {
      NoCharInJoin(sep, c, parts[1..]);
    }
  }

  /** A name made of letters, digits and '_' is written unchanged by the form serializer. */
  lemma PlainName(s: string)
    requires forall i :: 0 <= i < |s| ==> IsAsciiAlnum(s[i]) || s[i] == '_'
    ensures FormEncode(s) == s
  {
  }

  lemma FilePiece(v: string)
    ensures SerializedParam(Param("file", v)) == "file=" + FormEncode(v)
  {
    PlainName("file");
    assert "file" + "=" == "file=";
  }

  /** The `mode` pair is written as "mode=ar_preferred". */
  lemma ModePiece()
    ensures SerializedParam(Param("mode", "ar_preferred")) == "mode=ar_preferred"
  {
    ModePieceUnfolded();
    ModePieceEncoded();
  }

  /**
   * `ModePiece` is proved in three steps (serialization, encoding, the literal
   * text) because the solver runs out of resource when it sees the three
   * string literals together with the serializer's definition at once.
   */
  lemma ModePieceUnfolded()
    ensures SerializedParam(Param("mode", "ar_preferred")) == FormEncode("mode") + "=" + FormEncode("ar_preferred")
  {
  }

  lemma ModePieceEncoded()
    ensures FormEncode("mode") + "=" + FormEncode("ar_preferred") == "mode=ar_preferred"
  {
    PlainName("mode");
    PlainName("ar_preferred");
    ModePieceText();
  }

  lemma ModePieceText()
    ensures "mode" + "=" + "ar_preferred" == "mode=ar_preferred"
  {
  }

  lemma TitlePiece(v: string)
    ensures SerializedParam(Param("title", v)) == "title=" + FormEncode(v)
  {
    PlainName("title");
    assert "title" + "=" == "title=";
  }

  /** The serialized pairs of the intent's parameters. */
  lemma IntentPieces(absoluteUrl: string, title: string)
    ensures SerializedParams(IntentParams(absoluteUrl, title)) ==
      ["file=" + FormEncode(absoluteUrl), "mode=ar_preferred"]
        + (if title != "" then ["title=" + FormEncode(title)] else [])
  {
    FirstIntentPiece(absoluteUrl, title);
    SecondIntentPiece(absoluteUrl, title);
    ThirdIntentPiece(absoluteUrl, title);
    TwoOrThree(SerializedParams(IntentParams(absoluteUrl, title)), title != "",
      "file=" + FormEncode(absoluteUrl), "mode=ar_preferred", "title=" + FormEncode(title));
  }

  lemma FirstIntentPiece(absoluteUrl: string, title: string)
    ensures SerializedParams(IntentParams(absoluteUrl, title))[0] == "file=" + FormEncode(absoluteUrl)
  {
    assert IntentParams(absoluteUrl, title)[0] == Param("file", absoluteUrl);
    FilePiece(absoluteUrl);
  }

  lemma SecondIntentPiece(absoluteUrl: string, title: string)
    ensures SerializedParams(IntentParams(absoluteUrl, title))[1] == "mode=ar_preferred"
  {
    assert IntentParams(absoluteUrl, title)[1] == Param("mode", "ar_preferred");
    ModePiece();
  }

  lemma ThirdIntentPiece(absoluteUrl: string, title: string)
    ensures |SerializedParams(IntentParams(absoluteUrl, title))| == (if title != "" then 3 else 2)
    ensures title != "" ==> SerializedParams(IntentParams(absoluteUrl, title))[2] == "title=" + FormEncode(title)
  {
    if title != "" {
      assert IntentParams(absoluteUrl, title)[2] == Param("title", title);
      TitlePiece(title);
    }
  }

  /** A list of two or three known pieces, written as a literal. */
  lemma TwoOrThree(pieces: seq<string>, three: bool, a: string, b: string, c: string)
    requires |pieces| == (if three then 3 else 2)
    requires pieces[0] == a && pieces[1] == b
    requires three ==> pieces[2] == c
    ensures pieces == [a, b] + (if three then [c] else [])
  {
  }

  /** `openAndroidSceneViewer`: goes to the Scene Viewer intent for the GLB, titled with the card's name. */
  function OpenAndroidSceneViewer(item: Item, env: Env, title: string, pageHref: string, resolve: (string, string) -> string): (action: Action)
    ensures action.Warn? <==> !Truthy(item.androidModelPath) || !env.supportsSceneViewer
    ensures !action.Warn? ==> action == Navigate(BuildSceneViewerIntent(item.androidModelPath.value, title, pageHref, resolve))
  {
    if !Truthy(item.androidModelPath) then Warn(NoGlbStatus)
    else if !env.supportsSceneViewer then Warn(NoSceneViewerStatus)
    else Navigate(BuildSceneViewerIntent(item.androidModelPath.value, title, pageHref, resolve))
  }

  /** `openDefaultDownload`: opens the download target, as written, in a new tab. */
  function OpenDefaultDownload(item: Item): (action: Action)
    ensures action.Warn? <==> !Truthy(DownloadTarget(item))
    ensures !action.Warn? ==> action == OpenWindow(DownloadTarget(item).value, "_blank", "noopener")
  {
    var target := DownloadTarget(item);
    if !Truthy(target) then Warn(NoDownloadStatus)
    else OpenWindow(target.value, "_blank", "noopener")
  }

  /** `handleArLaunch`: iOS first, then Android, then the download. */
  function HandleArLaunch(item: Item, env: Env, title: string, pageHref: string, resolve: (string, string) -> string): (action: Action)
    ensures env.isIOS ==> action == OpenIosQuickLook(item, env)
    ensures !env.isIOS && env.isAndroid ==> action == OpenAndroidSceneViewer(item, env, title, pageHref, resolve)
    ensures !env.isIOS && !env.isAndroid ==> action == OpenDefaultDownload(item)
  {
    if env.isIOS then OpenIosQuickLook(item, env)
    else if env.isAndroid then OpenAndroidSceneViewer(item, env, title, pageHref, resolve)
    else OpenDefaultDownload(item)
  }

  /**
   * The button and the launch agree: pressing an available button always
   * navigates or opens a tab (to the button's own link on iOS, and to the
   * link's unencoded target elsewhere), and an unavailable one would only
   * warn.
   */
  lemma LaunchAgreesWithAvailability(item: Item, env: Env, title: string, pageHref: string, resolve: (string, string) -> string)
    ensures var a := GetArAvailability(item, env);
      var action := HandleArLaunch(item, env, title, pageHref, resolve);
      && (a.available <==> !action.Warn?)
      && (env.isIOS && a.available ==> action == Navigate(a.fallbackHref.value))
      && (!env.isIOS && env.isAndroid && a.available ==> action.Navigate? && action.url[..|IntentPrefix|] == IntentPrefix)
      && (!env.isIOS && !env.isAndroid && a.available ==> action.OpenWindow? && EncodeUri(action.url) == a.fallbackHref.value)
  {
  }
}
