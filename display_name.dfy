/**
 * `prettifyName` (scripts/generate-model-manifest.mjs:92-98): the display name
 * of a model, made from the file stem in four regular-expression passes:
 *   1. `replace(/[-_]+/g, ' ')`   every run of '-' and '_' becomes one space;
 *   2. `replace(/\s+/g, ' ')`     every run of white space becomes one space;
 *   3. `trim()`                   white space at both ends is cut;
 *   4. `replace(/\b\w/g, upper)`  a word character with no word character
 *                                 before it is upper-cased.
 * `\w` is the ASCII class [A-Za-z0-9_] (the expressions carry no `u` flag), so
 * a letter such as 'é' or a Han character is not a word character.
 */
module DisplayName {
  import opened Text

  predicate IsDash(c: char) { c == '-' || c == '_' }

  /** `\w` in a regular expression without the `u` flag. */
  predicate IsWordChar(c: char) {
    'a' <= c <= 'z' || 'A' <= c <= 'Z' || '0' <= c <= '9' || c == '_'
  }

  predicate NoDashes(s: string) {
    forall i :: 0 <= i < |s| ==> !IsDash(s[i])
  }

  /** Every white-space character is a plain space, and no two white-space characters are adjacent. */
  predicate SingleSpaced(s: string) {
    && (forall i :: 0 <= i < |s| && IsWhite(s[i]) ==> s[i] == ' ')
    && (forall i :: 0 < i < |s| && IsWhite(s[i]) ==> !IsWhite(s[i - 1]))
  }

  predicate Trimmed(s: string) {
    s != [] ==> !IsWhite(s[0]) && !IsWhite(s[|s| - 1])
  }

  /** Position `i` is where `\b\w` matches: a word character not preceded by one. */
  predicate WordStart(s: string, i: int)
    requires 0 <= i < |s|
  {
    IsWordChar(s[i]) && (i == 0 || !IsWordChar(s[i - 1]))
  }

  predicate WordsCapitalized(s: string) {
    forall i :: 0 <= i < |s| && WordStart(s, i) ==> !IsAsciiLower(s[i])
  }

  /** Upper-casing keeps a character's class and is idempotent. */
  lemma UpperKeepsClasses(c: char)
    ensures IsWordChar(UpperChar(c)) == IsWordChar(c)
    ensures IsWhite(UpperChar(c)) == IsWhite(c)
    ensures IsDash(UpperChar(c)) == IsDash(c)
    ensures UpperChar(UpperChar(c)) == UpperChar(c)
  {
  }

  /** A character that separates words in a display name: white space, '-' or '_'. */
  predicate IsBreak(c: char) { IsWhite(c) || IsDash(c) }

  /** The characters of `s` that are not breaks, in order. */
  function Kept(s: string): (r: string)
    ensures forall i :: 0 <= i < |r| ==> !IsBreak(r[i])
  {
    if s == [] then [] else (if IsBreak(s[0]) then [] else [s[0]]) + Kept(s[1..])
  }

  lemma KeptCons(c: char, t: string)
    ensures Kept([c] + t) == (if IsBreak(c) then [] else [c]) + Kept(t)
  {
    assert ([c] + t)[1..] == t;
  }

  /** Pass 1; `inRun` says that the character before `s` was a dash. */
  function DashRunsToSpace(s: string, inRun: bool): (r: string)
    ensures NoDashes(r)
    ensures NoDashes(s) ==> r == s
  {
    if s == [] then []
    else if IsDash(s[0]) then (if inRun then [] else [' ']) + DashRunsToSpace(s[1..], true)
    else [s[0]] + DashRunsToSpace(s[1..], false)
  }

  /** Pass 2; `inRun` says that the character before `s` was white space. */
  function CollapseWhite(s: string, inRun: bool): (r: string)
    ensures SingleSpaced(r)
    ensures inRun && r != [] ==> !IsWhite(r[0])
    ensures NoDashes(s) ==> NoDashes(r)
    ensures SingleSpaced(s) && (inRun && s != [] ==> !IsWhite(s[0])) ==> r == s
  {
    if s == [] then []
    else if IsWhite(s[0]) then (if inRun then [] else [' ']) + CollapseWhite(s[1..], true)
    else [s[0]] + CollapseWhite(s[1..], false)
  }

  /** Pass 1 keeps every character other than white space, '-' and '_', in order. */
  lemma {:induction false} DashRunsKeepText(s: string, inRun: bool)
    ensures Kept(DashRunsToSpace(s, inRun)) == Kept(s)
    decreases |s|
  {
    if s != [] {
      var rest := DashRunsToSpace(s[1..], IsDash(s[0]));
      DashRunsKeepText(s[1..], IsDash(s[0]));
      KeptCons(s[0], s[1..]);
      assert [s[0]] + s[1..] == s;
      if IsDash(s[0]) {
        KeptCons(' ', rest);
        if inRun {
          assert DashRunsToSpace(s, inRun) == [] + rest == rest;
        }
      } else {
        KeptCons(s[0], rest);
      }
    }
  }

  /** Pass 2 keeps every character other than white space, '-' and '_', in order. */
  lemma {:induction false} CollapseWhiteKeepsText(s: string, inRun: bool)
    ensures Kept(CollapseWhite(s, inRun)) == Kept(s)
    decreases |s|
  {
    if s != [] {
      var rest := CollapseWhite(s[1..], IsWhite(s[0]));
      CollapseWhiteKeepsText(s[1..], IsWhite(s[0]));
      KeptCons(s[0], s[1..]);
      assert [s[0]] + s[1..] == s;
      if IsWhite(s[0]) {
        KeptCons(' ', rest);
        if inRun {
          assert CollapseWhite(s, inRun) == [] + rest == rest;
        }
      } else {
        KeptCons(s[0], rest);
      }
    }
  }

  /** What pass 4 leaves at position `i` of `s`, given whether a word character came before `s`. */
  function CapitalizedAt(s: string, afterWord: bool, i: int): char
    requires 0 <= i < |s|
  {
    var prevIsWord := if i == 0 then afterWord else IsWordChar(s[i - 1]);
    if IsWordChar(s[i]) && !prevIsWord then UpperChar(s[i]) else s[i]
  }

  /** Pass 4; `afterWord` says that the character before `s` was a word character. */
  function CapitalizeWords(s: string, afterWord: bool): (r: string)
    ensures |r| == |s|
    ensures forall i {:trigger r[i]} :: 0 <= i < |s| ==> r[i] == CapitalizedAt(s, afterWord, i)
  {
    if s == [] then []
    else
      var rest := CapitalizeWords(s[1..], IsWordChar(s[0]));
      var r := [if IsWordChar(s[0]) && !afterWord then UpperChar(s[0]) else s[0]] + rest;
      assert forall i :: 0 < i < |s| ==> r[i] == rest[i - 1] == CapitalizedAt(s[1..], IsWordChar(s[0]), i - 1);
      assert forall i :: 0 < i < |s| ==> CapitalizedAt(s[1..], IsWordChar(s[0]), i - 1) == CapitalizedAt(s, afterWord, i);
      r
  }

  /** A piece of a dash-free, single-spaced string is dash-free and single-spaced. */
  lemma SliceKeepsShape(s: string, k: int, n: int)
    requires 0 <= k <= k + n <= |s|
    requires NoDashes(s) && SingleSpaced(s)
    ensures NoDashes(s[k..k + n]) && SingleSpaced(s[k..k + n])
  {
    var t := s[k..k + n];
    assert forall i :: 0 <= i < n ==> t[i] == s[k + i];
  }

  /** `trim()` keeps a dash-free, single-spaced string so and leaves no white space at its ends. */
  lemma TrimKeepsShape(x: string)
    requires NoDashes(x) && SingleSpaced(x)
    ensures NoDashes(Trim(x)) && SingleSpaced(Trim(x)) && Trimmed(Trim(x))
  {
    SliceKeepsShape(x, |x| - |TrimStart(x)|, |Trim(x)|);
  }

  /** Passes 1 to 3 produce a string without dashes, single-spaced and trimmed. */
  lemma NormalizedShape(input: string)
    ensures var t := Trim(CollapseWhite(DashRunsToSpace(input, false), false));
      NoDashes(t) && SingleSpaced(t) && Trimmed(t)
  {
    TrimKeepsShape(CollapseWhite(DashRunsToSpace(input, false), false));
  }

  /** Pass 4 keeps the shape of passes 1 to 3 and capitalises every word. */
  lemma CapitalizedShape(t: string)
    requires NoDashes(t) && SingleSpaced(t) && Trimmed(t)
    ensures var r := CapitalizeWords(t, false);
      NoDashes(r) && SingleSpaced(r) && Trimmed(r) && WordsCapitalized(r)
  {
    var r := CapitalizeWords(t, false);
    forall i | 0 <= i < |t|
      ensures IsWordChar(r[i]) == IsWordChar(t[i]) && IsWhite(r[i]) == IsWhite(t[i]) && IsDash(r[i]) == IsDash(t[i])
      ensures r[i] == t[i] || r[i] == UpperChar(t[i])
    {
      UpperKeepsClasses(t[i]);
    }
    assert SingleSpaced(r) by {
      forall i | 0 <= i < |r| && IsWhite(r[i]) ensures r[i] == ' ' {
        UpperKeepsClasses(t[i]);
      }
    }
    assert WordsCapitalized(r) by {
      forall i | 0 <= i < |r| && WordStart(r, i) ensures !IsAsciiLower(r[i]) {
        assert WordStart(t, i);
      }
    }
  }

  /**
   * `prettifyName`: the result has no dash or underscore, single plain spaces
   * between words, no white space at either end, and every word starts with a
   * character that is not a lower-case ASCII letter.
   */
  function PrettifyName(input: string): (r: string)
    ensures NoDashes(r)
    ensures SingleSpaced(r)
    ensures Trimmed(r)
    ensures WordsCapitalized(r)
  {
    NormalizedShape(input);
    var t := Trim(CollapseWhite(DashRunsToSpace(input, false), false));
    CapitalizedShape(t);
    CapitalizeWords(t, false)
  }

  /** Passes 1 to 3 leave a string alone that already has the shape they produce. */
  lemma NormalizedIsFixed(s: string)
    requires NoDashes(s) && SingleSpaced(s) && Trimmed(s)
    ensures Trim(CollapseWhite(DashRunsToSpace(s, false), false)) == s
  {
    assert CollapseWhite(s, false) == s;
    if s != [] {
      assert TrimStart(s) == s;
    }
  }

  /** Pass 4 applied to its own output changes nothing. */
  lemma CapitalizeIdempotent(s: string)
    ensures CapitalizeWords(CapitalizeWords(s, false), false) == CapitalizeWords(s, false)
  {
    var once := CapitalizeWords(s, false);
    var twice := CapitalizeWords(once, false);
    forall i | 0 <= i < |s| ensures IsWordChar(once[i]) == IsWordChar(s[i]) {
      UpperKeepsClasses(s[i]);
    }
    forall i | 0 <= i < |s| ensures twice[i] == once[i] {
      UpperKeepsClasses(s[i]);
    }
  }

  /** Prettifying a display name again gives the same display name. */
  lemma {:induction false} PrettifyIdempotent(input: string)
    ensures PrettifyName(PrettifyName(input)) == PrettifyName(input)
  {
    var t := Trim(CollapseWhite(DashRunsToSpace(input, false), false));
    var p := PrettifyName(input);
    assert p == CapitalizeWords(t, false);
    NormalizedIsFixed(p);
    CapitalizeIdempotent(t);
  }

  // ------------------------------------------- a word-level reference

  /** Passes 1 and 2 in one: every maximal run of breaks becomes one space; `inRun` says a break came before `s`. */
  function Squeeze(s: string, inRun: bool): (r: string)
    ensures inRun && r != [] ==> !IsWhite(r[0])
  {
    if s == [] then []
    else if IsBreak(s[0]) then (if inRun then [] else [' ']) + Squeeze(s[1..], true)
    else [s[0]] + Squeeze(s[1..], false)
  }

  /** The longest prefix of `s` without a break: the word `s` starts with. */
  function WordAt(s: string): (w: string)
    ensures |w| <= |s| && w == s[..|w|]
    ensures forall i :: 0 <= i < |w| ==> !IsBreak(w[i])
    ensures |w| < |s| ==> IsBreak(s[|w|])
    ensures s != [] && !IsBreak(s[0]) ==> w != []
  {
    if s == [] || IsBreak(s[0]) then [] else [s[0]] + WordAt(s[1..])
  }

  /** The words of `s`: its maximal runs of characters that are not breaks, in order. */
  function Words(s: string): (ws: seq<string>)
    ensures forall k :: 0 <= k < |ws| ==> ws[k] != [] && forall i :: 0 <= i < |ws[k]| ==> !IsBreak(ws[k][i])
    decreases |s|
  {
    if s == [] then []
    else if IsBreak(s[0]) then Words(s[1..])
    else
      var w := WordAt(s);
      [w] + Words(s[|w|..])
  }

  /** The words joined with single spaces. */
  function Unwords(ws: seq<string>): string {
    if ws == [] then []
    else if |ws| == 1 then ws[0]
    else ws[0] + " " + Unwords(ws[1..])
  }

  /** Passes 1 and 2 together turn every maximal run of white space, '-' and '_' into one space and keep the rest. */
  lemma {:induction false} PassesOneAndTwo(s: string, afterDash: bool, afterWhite: bool)
    requires afterDash ==> afterWhite
    ensures CollapseWhite(DashRunsToSpace(s, afterDash), afterWhite) == Squeeze(s, afterWhite)
    decreases |s|
  {
    if s != [] {
      var rest := s[1..];
      var lead: string := if afterWhite then [] else [' '];
      if IsDash(s[0]) {
        var d := DashRunsToSpace(rest, true);
        PassesOneAndTwo(rest, true, true);
        assert Squeeze(s, afterWhite) == lead + Squeeze(rest, true);
        if afterDash {
          assert DashRunsToSpace(s, afterDash) == [] + d == d;
        } else {
          assert DashRunsToSpace(s, afterDash) == [' '] + d;
          assert ([' '] + d)[1..] == d;
          assert CollapseWhite([' '] + d, afterWhite) == lead + CollapseWhite(d, true);
        }
      } else {
        var d := DashRunsToSpace(rest, false);
        assert DashRunsToSpace(s, afterDash) == [s[0]] + d;
        assert ([s[0]] + d)[1..] == d;
        if IsWhite(s[0]) {
          PassesOneAndTwo(rest, false, true);
          assert CollapseWhite([s[0]] + d, afterWhite) == lead + CollapseWhite(d, true);
          assert Squeeze(s, afterWhite) == lead + Squeeze(rest, true);
        } else {
          PassesOneAndTwo(rest, false, false);
          assert CollapseWhite([s[0]] + d, afterWhite) == [s[0]] + CollapseWhite(d, false);
          assert Squeeze(s, afterWhite) == [s[0]] + Squeeze(rest, false);
        }
      }
    }
  }

  /** A word at the front of `s` is copied by `Squeeze`, which then continues as after a word. */
  lemma {:induction false} SqueezeWord(w: string, rest: string, inRun: bool)
    requires w != [] && forall i :: 0 <= i < |w| ==> !IsBreak(w[i])
    ensures Squeeze(w + rest, inRun) == w + Squeeze(rest, false)
    decreases |w|
  {
    assert (w + rest)[1..] == w[1..] + rest;
    if |w| > 1 {
      SqueezeWord(w[1..], rest, false);
    }
    assert [w[0]] + w[1..] == w;
  }

  /** White space at the end of the second part is all `trimEnd` looks at, unless that part is all white. */
  lemma {:induction false} TrimEndAppend(a: string, b: string)
    ensures TrimEnd(a + b) == if TrimEnd(b) == [] then TrimEnd(a) else a + TrimEnd(b)
    decreases |b|
  {
    if b == [] {
      assert a + b == a;
    } else if IsWhite(b[|b| - 1]) {
      assert (a + b)[..|a + b| - 1] == a + b[..|b| - 1];
      TrimEndAppend(a, b[..|b| - 1]);
    }
  }

  /** After a break, `Squeeze` followed by `trimEnd` gives the words joined by single spaces. */
  lemma {:induction false} SqueezedWords(s: string)
    ensures TrimEnd(Squeeze(s, true)) == Unwords(Words(s))
    decreases |s|
  {
    if s != [] {
      if IsBreak(s[0]) {
        assert Squeeze(s, true) == [] + Squeeze(s[1..], true) == Squeeze(s[1..], true);
        SqueezedWords(s[1..]);
      } else {
        var w := WordAt(s);
        var rest := s[|w|..];
        assert s == w + rest;
        SqueezeWord(w, rest, true);
        assert Words(s) == [w] + Words(rest);
        if rest == [] {
          assert w + [] == w;
          TrimEndAppend(w, []);
          assert TrimEnd(w) == w;
        } else {
          var z := Squeeze(rest[1..], true);
          assert Squeeze(rest, false) == [' '] + z;
          assert Words(rest) == Words(rest[1..]);
          SqueezedWords(rest[1..]);
          assert w + ([' '] + z) == (w + [' ']) + z;
          TrimEndAppend(w + [' '], z);
          if TrimEnd(z) == [] {
            TrimEndAppend(w, [' ']);
            assert TrimEnd(w) == w;
          } else {
            assert Unwords([w] + Words(rest[1..])) == w + " " + Unwords(Words(rest[1..]));
          }
        }
      }
    }
  }

  /** `trimStart` cuts a leading space and nothing from a string that starts with no white space. */
  lemma TrimStartLead(z: string)
    requires z != [] ==> !IsWhite(z[0])
    ensures TrimStart([' '] + z) == z && TrimStart(z) == z
  {
    assert ([' '] + z)[1..] == z;
  }

  /** `Squeeze` before any break and after one differ only in a leading space. */
  lemma SqueezeLead(s: string)
    ensures Squeeze(s, false) == (if s != [] && IsBreak(s[0]) then [' '] else []) + Squeeze(s, true)
  {
    if s != [] && !IsBreak(s[0]) {
      assert Squeeze(s, false) == [s[0]] + Squeeze(s[1..], false) == Squeeze(s, true);
    }
  }

  /** The space `Squeeze` writes for leading breaks is all that `trimStart` cuts. */
  lemma TrimStartSqueeze(s: string)
    ensures TrimStart(Squeeze(s, false)) == Squeeze(s, true)
  {
    SqueezeLead(s);
    TrimStartLead(Squeeze(s, true));
    if !(s != [] && IsBreak(s[0])) {
      assert Squeeze(s, false) == [] + Squeeze(s, true);
    }
  }

  /** Passes 1 to 3 give the words of the name joined by single spaces. */
  lemma NormalizedIsUnwords(s: string)
    ensures Trim(CollapseWhite(DashRunsToSpace(s, false), false)) == Unwords(Words(s))
  {
    PassesOneAndTwo(s, false, false);
    TrimStartSqueeze(s);
    SqueezedWords(s);
    assert Trim(Squeeze(s, false)) == TrimEnd(TrimStart(Squeeze(s, false)));
  }

  /**
   * `prettifyName` at the level of words: the words of the stem (its maximal
   * runs of characters other than white space, '-' and '_'), joined by single
   * spaces, with every `\b\w` position upper-cased.
   */
  lemma PrettifyByWords(input: string)
    ensures PrettifyName(input) == CapitalizeWords(Unwords(Words(input)), false)
  {
    NormalizedIsUnwords(input);
  }

  /** A dash between two word characters becomes one space: "a-b" is shown as "A B". */
  lemma DashBecomesSpace(x: char, y: char)
    requires IsWordChar(x) && IsWordChar(y) && !IsDash(x) && !IsDash(y)
    ensures PrettifyName([x, '-', y]) == [UpperChar(x), ' ', UpperChar(y)]
  {
    var s := [x, '-', y];
    assert !IsBreak(x) && !IsBreak(y);
    assert WordAt(s[2..]) == [y];
    assert WordAt(s) == [x];
    assert Words(s[1..]) == Words(s[2..]);
    assert Words(s[2..]) == [[y]] + Words(s[3..]);
    assert Words(s) == [[x], [y]];
    assert Unwords([[x], [y]]) == [x, ' ', y];
    PrettifyByWords(s);
    var c := CapitalizeWords([x, ' ', y], false);
    assert c[0] == UpperChar(x) && c[1] == ' ' && c[2] == UpperChar(y);
  }

  /** A string has no words exactly when it is made only of white space, '-' and '_'. */
  lemma {:induction false} WordsEmptyIffAllBreaks(s: string)
    ensures Words(s) == [] <==> forall i :: 0 <= i < |s| ==> IsBreak(s[i])
    decreases |s|
  {
    if s != [] && IsBreak(s[0]) {
      WordsEmptyIffAllBreaks(s[1..]);
      assert forall i :: 1 <= i < |s| ==> s[i] == s[1..][i - 1];
    }
  }

  /**
   * The display name is empty exactly when the stem is made only of white
   * space, '-' and '_' (a file named "-.usdz", say).
   */
  lemma PrettifyBlankIffAllBreaks(input: string)
    ensures PrettifyName(input) == [] <==> forall i :: 0 <= i < |input| ==> IsBreak(input[i])
  {
    PrettifyByWords(input);
    WordsEmptyIffAllBreaks(input);
    var ws := Words(input);
    if ws != [] {
      assert |Unwords(ws)| >= |ws[0]| > 0;
    }
  }
}
