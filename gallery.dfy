/**
 * The gallery page's own small computations: the platform badge of a card
 * (`renderBadges`), the placeholder initials (`getInitials`), the escaping
 * of a model id for a CSS attribute selector (`escapeCss`), the search
 * filter (`applyFilter`), and the page state that `loadModels` replaces
 * (`state.items` and the one-shot `state.pendingFocusId`).
 */
module Gallery {
  import opened Wrappers
  import opened Text
  import opened PageItem

  // ------------------------------------------------------------ renderBadges

  datatype Badge = Badge(text: string, tone: string)

  const BothPlatforms := Badge("iOS & Android", "info")
  const IosOnly := Badge("iOS / USDZ", "warning")
  const AndroidOnly := Badge("Android / GLB", "warning")

  /**
   * The badges `renderBadges` pushes: one badge naming the platforms whose
   * asset the item has, none when it has neither.
   */
  function PlatformBadges(item: Item): (badges: seq<Badge>)
    ensures |badges| <= 1
    ensures badges == [] <==> !Truthy(item.modelPath) && !Truthy(item.androidModelPath)
    ensures badges == [BothPlatforms] <==> Truthy(item.modelPath) && Truthy(item.androidModelPath)
    ensures badges == [IosOnly] <==> Truthy(item.modelPath) && !Truthy(item.androidModelPath)
    ensures badges == [AndroidOnly] <==> !Truthy(item.modelPath) && Truthy(item.androidModelPath)
  {
    if Truthy(item.modelPath) && Truthy(item.androidModelPath) then [BothPlatforms]
    else if Truthy(item.modelPath) then [IosOnly]
    else if Truthy(item.androidModelPath) then [AndroidOnly]
    else []
  }

  function BadgeMarkup(b: Badge): string {
    "<span class=\"badge " + b.tone + "\">" + b.text + "</span>"
  }

  function JoinMarkup(badges: seq<Badge>): string {
    if badges == [] then "" else BadgeMarkup(badges[0]) + JoinMarkup(badges[1..])
  }

  /** What the badge container ends up as: hidden and empty, or shown with the badges' markup. */
  datatype BadgeBox = BadgeBox(hidden: bool, html: string)

  /** `renderBadges`: the container is hidden exactly when there is no badge. */
  function RenderBadges(item: Item): (box: BadgeBox)
    ensures box.hidden <==> !Truthy(item.modelPath) && !Truthy(item.androidModelPath)
    ensures box.hidden ==> box.html == ""
    ensures !box.hidden ==> box.html == BadgeMarkup(PlatformBadges(item)[0])
  {
    var badges := PlatformBadges(item);
    if badges == [] then BadgeBox(true, "")
    else
      assert JoinMarkup(badges) == BadgeMarkup(badges[0]) + JoinMarkup([]);
      BadgeBox(false, JoinMarkup(badges))
  }

  // ------------------------------------------------------------- getInitials

  const DefaultInitials := "AR"

  function Min(a: int, b: int): int { if a < b then a else b }

  /**
   * `getInitials`: "AR" for a blank name, otherwise the first one or two
   * characters of the trimmed name in upper case, the first of them being
   * the name's first non-white character.
   */
  function Initials(name: string): (r: string)
    ensures (forall i :: 0 <= i < |name| ==> IsWhite(name[i])) ==> r == DefaultInitials
    ensures !(forall i :: 0 <= i < |name| ==> IsWhite(name[i])) ==>
      && |r| == Min(2, |Trim(name)|)
      && (forall i :: 0 <= i < |r| ==> r[i] == UpperChar(Trim(name)[i]))
      && r[0] == UpperChar(name[|name| - |TrimStart(name)|])
  {
    var trimmed := Trim(name);
    TrimEmptyIffAllWhite(name);
    if trimmed == [] then DefaultInitials
    else Upper(trimmed[..Min(2, |trimmed|)])
  }

  // -------------------------------------------------------------- escapeCss

  /** The characters the fallback leaves alone: `[a-zA-Z0-9_-]`. */
  predicate IsCssSafe(c: char) {
    ('a' <= c <= 'z') || ('A' <= c <= 'Z') || ('0' <= c <= '9') || c == '_' || c == '-'
  }

  /** The fallback of `escapeCss`: a backslash before every other character. */
  function EscapeCssFallback(value: string): (r: string)
    ensures |value| <= |r| <= 2 * |value|
    ensures (forall i :: 0 <= i < |value| ==> IsCssSafe(value[i])) ==> r == value
    ensures r != [] ==> r[0] == '\\' || IsCssSafe(r[0])
  {
    if value == [] then []
    else (if IsCssSafe(value[0]) then [value[0]] else ['\\', value[0]]) + EscapeCssFallback(value[1..])
  }

  /** One character: kept when safe, otherwise written after a backslash. */
  lemma EscapeCssSingle(c: char)
    ensures EscapeCssFallback([c]) == if IsCssSafe(c) then [c] else ['\\', c]
  {
    assert [c][1..] == [];
  }

  /** The fallback works character by character: escaping `a + b` is escaping `a`, then `b`. */
  lemma {:induction false} EscapeCssAppend(a: string, b: string)
    ensures EscapeCssFallback(a + b) == EscapeCssFallback(a) + EscapeCssFallback(b)
  {
    if a == [] {
      assert a + b == b;
    } else {
      assert (a + b)[0] == a[0] && (a + b)[1..] == a[1..] + b;
      EscapeCssAppend(a[1..], b);
    }
  }

  /** `escapeCss`: the browser's `CSS.escape` when there is one, the fallback otherwise. */
  function EscapeCss(value: string, nativeEscape: Option<string -> string>): (r: string)
    ensures nativeEscape.None? ==> r == EscapeCssFallback(value)
    ensures nativeEscape.Some? ==> r == nativeEscape.value(value)
  {
    match nativeEscape
    case Some(escape) => escape(value)
    case None => EscapeCssFallback(value)
  }

  /**
   * How CSS reads the escapes the fallback writes: a backslash stands for the
   * character after it. CSS reads a backslash differently in two cases: before
   * a hex digit it starts a code-point escape, and before a line break ('\n',
   * '\r', '\f') inside a quoted value it continues the line. Hex digits are
   * safe, so no backslash the fallback adds comes before one
   * (`EscapeCssSingle`); one does come before each line break, so ids with
   * line breaks are not covered.
   */
  function UnescapeCss(s: string): string
    decreases |s|
  {
    if s == [] then []
    else if s[0] == '\\' && |s| >= 2 then [s[1]] + UnescapeCss(s[2..])
    else [s[0]] + UnescapeCss(s[1..])
  }

  /** Round trip: reading the fallback's escapes back gives the id. */
  lemma {:induction false} UnescapeEscape(value: string)
    ensures UnescapeCss(EscapeCssFallback(value)) == value
  {
    if value != [] {
      var rest := EscapeCssFallback(value[1..]);
      UnescapeEscape(value[1..]);
      if IsCssSafe(value[0]) {
        assert ([value[0]] + rest)[1..] == rest;
      } else {
        assert (['\\', value[0]] + rest)[2..] == rest;
      }
    }
  }

  /** Every double quote of `s` comes right after a backslash. */
  predicate QuotesEscaped(s: string) {
    forall i :: 0 < i < |s| && s[i] == '"' ==> s[i - 1] == '\\'
  }

  /**
   * The escaped text starts with no quote and every double quote in it comes
   * right after a backslash. On its own this does not rule out an escaped
   * backslash before a bare quote; together with `UnescapeEscape`, which reads
   * every quote of the output back as a quote of the id, it means the id
   * cannot close the selector's quoted attribute value.
   */
  lemma {:induction false} EscapedQuotesArePaired(value: string)
    ensures EscapeCssFallback(value) != [] ==> EscapeCssFallback(value)[0] != '"'
    ensures QuotesEscaped(EscapeCssFallback(value))
  {
    if value != [] {
      var head := if IsCssSafe(value[0]) then [value[0]] else ['\\', value[0]];
      var rest := EscapeCssFallback(value[1..]);
      EscapedQuotesArePaired(value[1..]);
      var r := head + rest;
      forall i | 0 < i < |r| && r[i] == '"' ensures r[i - 1] == '\\' {
        if i >= |head| {
          var j := i - |head|;
          assert rest[j] == '"';
          if j > 0 {
            assert r[i - 1] == rest[j - 1];
          } else {
            assert false;
          }
        }
      }
    }
  }

  // ------------------------------------------------------------ applyFilter

  /** `keywordRaw.trim().toLowerCase()`. */
  function Keyword(raw: string): (k: string)
    ensures k == "" <==> forall i :: 0 <= i < |raw| ==> IsWhite(raw[i])
    ensures |k| == |Trim(raw)|
  {
    TrimEmptyIffAllWhite(raw);
    Lower(Trim(raw))
  }

  /** `[item.displayName, item.id, item.fileName].filter(Boolean)`. */
  function SearchValues(item: Item): (values: seq<string>)
    ensures forall v :: v in values <==>
      (Truthy(item.displayName) && v == item.displayName.value)
      || (Truthy(item.id) && v == item.id.value)
      || (Truthy(item.fileName) && v == item.fileName.value)
  {
    (if Truthy(item.displayName) then [item.displayName.value] else [])
      + (if Truthy(item.id) then [item.id.value] else [])
      + (if Truthy(item.fileName) then [item.fileName.value] else [])
  }

  /** Some searched field of the item contains the keyword, ignoring case. */
  predicate Matches(item: Item, keyword: string) {
    exists v :: v in SearchValues(item) && Contains(Lower(v), keyword)
  }

  /**
   * `items.filter(...)`: the items that match a non-empty keyword, each as
   * often as it occurs and in the order of `items` (`MatchingCounts`,
   * `MatchingSingle` and `MatchingAppend`).
   */
  function Matching(items: seq<Item>, keyword: string): (r: seq<Item>)
    ensures |r| <= |items|
    ensures forall x :: x in r <==> x in items && Matches(x, keyword)
  {
    if items == [] then []
    else
      (if Matches(items[0], keyword) then [items[0]] else []) + Matching(items[1..], keyword)
  }

  /** Each matching item is kept as often as it occurs, and no other item is kept. */
  lemma {:induction false} MatchingCounts(items: seq<Item>, keyword: string)
    ensures forall x :: multiset(Matching(items, keyword))[x] == if Matches(x, keyword) then multiset(items)[x] else 0
  {
    if items != [] {
      MatchingCounts(items[1..], keyword);
      assert items == [items[0]] + items[1..];
    }
  }

  /** A single item is kept exactly when it matches. */
  lemma MatchingSingle(x: Item, keyword: string)
    ensures Matching([x], keyword) == if Matches(x, keyword) then [x] else []
  {
    assert [x][1..] == [];
  }

  /** Filtering a list made of two parts filters each part and keeps them in order. */
  lemma {:induction false} MatchingAppend(a: seq<Item>, b: seq<Item>, keyword: string)
    ensures Matching(a + b, keyword) == Matching(a, keyword) + Matching(b, keyword)
  {
    if a != [] {
      var head := if Matches(a[0], keyword) then [a[0]] else [];
      assert (a + b)[0] == a[0] && (a + b)[1..] == a[1..] + b;
      assert Matching(a + b, keyword) == head + Matching(a[1..] + b, keyword);
      MatchingAppend(a[1..], b, keyword);
      assert Matching(a, keyword) == head + Matching(a[1..], keyword);
    } else {
      assert a + b == b;
    }
  }

  /**
   * `applyFilter`: a blank search shows every item; otherwise the items whose
   * display name, id or file name contains the trimmed, lower-cased keyword.
   */
  function FilterItems(items: seq<Item>, raw: string): (shown: seq<Item>)
    ensures Keyword(raw) == "" ==> shown == items
    ensures Keyword(raw) != "" ==> forall x :: x in shown <==> x in items && Matches(x, Keyword(raw))
    ensures Keyword(raw) != "" ==> shown == Matching(items, Keyword(raw))
  {
    var keyword := Keyword(raw);
    if keyword == "" then items else Matching(items, keyword)
  }

  /** The search ignores the case of the keyword's letters. */
  lemma FilterIgnoresCase(items: seq<Item>, raw: string)
    ensures FilterItems(items, Upper(raw)) == FilterItems(items, raw)
  {
    TrimEndUpper(TrimStart(raw));
    TrimStartUpper(raw);
    LowerUpper(Trim(raw));
  }

  /** Upper-casing keeps white space white and everything else not white. */
  lemma UpperKeepsWhite(c: char)
    ensures IsWhite(UpperChar(c)) <==> IsWhite(c)
  {
  }

  lemma {:induction false} TrimStartUpper(s: string)
    ensures TrimStart(Upper(s)) == Upper(TrimStart(s))
  {
    if s != [] {
      UpperKeepsWhite(s[0]);
      assert Upper(s)[1..] == Upper(s[1..]);
      TrimStartUpper(s[1..]);
    }
  }

  lemma {:induction false} TrimEndUpper(s: string)
    ensures TrimEnd(Upper(s)) == Upper(TrimEnd(s))
  {
    if s != [] {
      UpperKeepsWhite(s[|s| - 1]);
      assert Upper(s)[..|s| - 1] == Upper(s[..|s| - 1]);
      TrimEndUpper(s[..|s| - 1]);
    }
  }

  lemma LowerUpper(s: string)
    ensures Lower(Upper(s)) == Lower(s)
  {
    assert forall i :: 0 <= i < |s| ==> LowerChar(UpperChar(s[i])) == LowerChar(s[i]);
  }

  // ------------------------------------------------------------ page state

  /** What `data/models.json` turned out to hold in its `items` field. */
  datatype ItemsField = ItemArray(items: seq<Item>) | NotAnArray

  /** The page state: the loaded items and the model to highlight once after the first successful load. */
  class Session {
    var items: seq<Item>
    var pendingFocusId: string

    /** The state before the first load: no items, and the `model` query parameter, if any, waiting to be focused. */
    constructor(modelParam: Option<string>)
      ensures items == []
      ensures pendingFocusId == modelParam.GetOr("")
    {
      items := [];
      pendingFocusId := modelParam.GetOr("");
    }

    /**
     * `loadModels`: a failed fetch or parse leaves the state alone; a
     * successful one replaces the items (no items when `items` is not an
     * array) and hands out the pending focus exactly once.
     */
    method Load(payload: Result<ItemsField, string>) returns (focus: Option<string>)
      modifies this
      ensures payload.Failure? ==> items == old(items) && pendingFocusId == old(pendingFocusId) && focus == None
      ensures payload.Success? && payload.value.ItemArray? ==> items == payload.value.items
      ensures payload.Success? && payload.value.NotAnArray? ==> items == []
      ensures payload.Success? ==> pendingFocusId == ""
      ensures payload.Success? ==> (focus.Some? <==> old(pendingFocusId) != "")
      ensures focus.Some? ==> focus.value == old(pendingFocusId)
    {
      focus := None;
      if payload.Failure? {
        return;
      }
      items := if payload.value.ItemArray? then payload.value.items else [];
      if pendingFocusId != "" {
        focus := Some(pendingFocusId);
        pendingFocusId := "";
      }
    }

    /** `applyFilter` on the loaded items. */
    method ApplyFilter(raw: string) returns (shown: seq<Item>)
      ensures shown == FilterItems(items, raw)
    {
      shown := FilterItems(items, raw);
    }
  }
}
