/**
 * What the page learns from the browser's user-agent string
 * (`detectEnvironment`) and the one-line hint it adds to the status bar
 * (`getEnvironmentHint`). Each test is a substring search: the source's
 * regular expressions are fixed ASCII alternations, tested either on the
 * lower-cased string or with the `i` flag, and both amount to a search in
 * the lower-cased string.
 */
module Environment {
  import opened Text

  datatype Env = Env(
    isIOS: bool,
    isAndroid: bool,
    isLine: bool,
    isSafari: bool,
    isChrome: bool,
    supportsQuickLook: bool,
    supportsSceneViewer: bool)

  /** The tokens whose presence makes the browser iOS (`/iphone|ipad|ipod/`). */
  const IosTokens: seq<string> := ["iphone", "ipad", "ipod"]
  /** Browsers on iOS that are not Safari although their user agent says "Safari" (`/crios|fxios|edgios|opios|line\//i`). */
  const NonSafariTokens: seq<string> := ["crios", "fxios", "edgios", "opios", "line/"]

  /** `s` contains one of `tokens`. */
  predicate ContainsAny(s: string, tokens: seq<string>) {
    exists k :: 0 <= k < |tokens| && Contains(s, tokens[k])
  }

  /** The relations between the flags that `detectEnvironment` establishes. */
  predicate Coherent(env: Env) {
    && (env.isSafari ==> env.isIOS)
    && env.supportsQuickLook == (env.isIOS && env.isSafari && !env.isLine)
    && env.supportsSceneViewer == (env.isAndroid && env.isChrome && !env.isLine)
  }

  /**
   * `detectEnvironment`: the flags of a user agent. Safari is an iOS browser
   * that says "safari" and none of the other iOS browsers' tokens; Chrome
   * says "chrome/" but not "edg/"; Quick Look needs Safari outside LINE and
   * Scene Viewer needs Chrome on Android outside LINE.
   */
  function DetectEnvironment(ua: string): (env: Env)
    ensures Coherent(env)
    ensures env.isIOS <==> ContainsAny(Lower(ua), IosTokens)
    ensures env.isAndroid <==> Contains(Lower(ua), "android")
    ensures env.isLine <==> Contains(Lower(ua), "line/")
    ensures env.isChrome <==> Contains(Lower(ua), "chrome/") && !Contains(Lower(ua), "edg/")
    ensures env.isSafari <==> env.isIOS && Contains(Lower(ua), "safari") && !ContainsAny(Lower(ua), NonSafariTokens)
  {
    var lower := Lower(ua);
    var isIOS := Contains(lower, "iphone") || Contains(lower, "ipad") || Contains(lower, "ipod");
    var isAndroid := Contains(lower, "android");
    var isLine := Contains(lower, "line/");
    var isChrome := Contains(lower, "chrome/") && !Contains(lower, "edg/");
    var isSafari := isIOS && Contains(lower, "safari")
      && !(Contains(lower, "crios") || Contains(lower, "fxios") || Contains(lower, "edgios")
           || Contains(lower, "opios") || Contains(lower, "line/"));
    assert isIOS <==> ContainsAny(lower, IosTokens) by {
      if isIOS {
        if Contains(lower, "iphone") { assert Contains(lower, IosTokens[0]); }
        else if Contains(lower, "ipad") { assert Contains(lower, IosTokens[1]); }
        else { assert Contains(lower, IosTokens[2]); }
      }
    }
    assert ContainsAny(lower, NonSafariTokens) <==> (Contains(lower, "crios") || Contains(lower, "fxios")
      || Contains(lower, "edgios") || Contains(lower, "opios") || Contains(lower, "line/")) by {
      if Contains(lower, "crios") { assert Contains(lower, NonSafariTokens[0]); }
      if Contains(lower, "fxios") { assert Contains(lower, NonSafariTokens[1]); }
      if Contains(lower, "edgios") { assert Contains(lower, NonSafariTokens[2]); }
      if Contains(lower, "opios") { assert Contains(lower, NonSafariTokens[3]); }
      if Contains(lower, "line/") { assert Contains(lower, NonSafariTokens[4]); }
    }
    Env(isIOS, isAndroid, isLine, isSafari, isChrome,
      isIOS && isSafari && !isLine,
      isAndroid && isChrome && !isLine)
  }

  /** LINE's in-app browser can open neither AR viewer, and is never taken for Safari. */
  lemma LineDisablesViewers(ua: string)
    requires Contains(Lower(ua), "line/")
    ensures !DetectEnvironment(ua).supportsQuickLook && !DetectEnvironment(ua).supportsSceneViewer
    ensures !DetectEnvironment(ua).isSafari
  {
    assert Contains(Lower(ua), NonSafariTokens[4]);
  }

  /** A user agent naming both an iOS device and Android is still an iOS one (the resolver tests iOS first). */
  lemma IosAndAndroidTokens(ua: string)
    requires Contains(Lower(ua), "ipad") && Contains(Lower(ua), "android")
    ensures DetectEnvironment(ua).isIOS && DetectEnvironment(ua).isAndroid
  {
    assert Contains(Lower(ua), IosTokens[1]);
  }

  const LineIosHint := "LINE 內建瀏覽器無法啟動 AR，請改用 Safari。"
  const IosHint := "請改用 iOS Safari 以啟用 Quick Look。"
  const LineAndroidHint := "LINE 內建瀏覽器無法使用 AR，請選「在 Chrome 中開啟」。"
  const AndroidHint := "請改用支援 ARCore Scene Viewer 的 Chrome 瀏覽器。"

  /**
   * `getEnvironmentHint`: a hint for a browser that cannot open the viewer
   * of its platform; inside LINE the LINE-specific text, iOS before Android.
   */
  function GetEnvironmentHint(env: Env): (hint: string)
    ensures env.isIOS && env.isLine ==> hint == LineIosHint
    ensures env.isIOS && !env.isLine && !env.supportsQuickLook ==> hint == IosHint
    ensures !(env.isIOS && (env.isLine || !env.supportsQuickLook)) && env.isAndroid && env.isLine ==> hint == LineAndroidHint
    ensures !(env.isIOS && (env.isLine || !env.supportsQuickLook)) && env.isAndroid && !env.isLine && !env.supportsSceneViewer
      ==> hint == AndroidHint
  {
    if env.isIOS && env.isLine then LineIosHint
    else if env.isIOS && !env.supportsQuickLook then IosHint
    else if env.isAndroid && env.isLine then LineAndroidHint
    else if env.isAndroid && !env.supportsSceneViewer then AndroidHint
    else ""
  }

  /**
   * For the flags `detectEnvironment` produces, a hint is shown exactly when
   * the platform's viewer cannot be used.
   */
  lemma HintIffViewerUnavailable(env: Env)
    requires Coherent(env)
    ensures GetEnvironmentHint(env) != "" <==>
      (env.isIOS && !env.supportsQuickLook) || (env.isAndroid && !env.supportsSceneViewer)
  {
  }
}
