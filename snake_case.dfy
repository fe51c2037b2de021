/** The `snakeCase` normaliser of bin/generate.js:39-45, which turns a free-text
    resource category such as "HTTP Request" into the tag "h_t_t_p_request".

    The JavaScript is a chain of four steps, modelled one function each:
      1. `.replace(/\W+/g, ' ')`     -- ReplaceNonWordRuns
      2. `.split(/ |\B(?=[A-Z])/)`   -- SplitFragments
      3. `.map(w => w.toLowerCase())` -- LowerCaseAll
      4. `.join('_')`                -- Text.Join
    Characters are classified as the regular expressions do without the `u`
    flag: a word character is one of [A-Za-z0-9_]; everything else, any
    non-ASCII character included, is a non-word character. */
module SnakeCasing {
  import Text

  /** `\w` */
  predicate IsWordChar(c: char)
  {
    'A' <= c <= 'Z' || 'a' <= c <= 'z' || '0' <= c <= '9' || c == '_'
  }

  /** `[A-Z]` */
  predicate IsUpper(c: char)
  {
    'A' <= c <= 'Z'
  }

  /** The characters a normalised tag is made of: [a-z0-9_]. */
  predicate IsSnakeChar(c: char)
  {
    'a' <= c <= 'z' || '0' <= c <= '9' || c == '_'
  }

  /** ASCII lowercasing. After step 1 only word characters and spaces are left,
      so this agrees with `toLowerCase` on everything it is applied to. */
  function ToLower(c: char): (r: char)
    ensures IsWordChar(c) ==> IsSnakeChar(r)
    ensures IsUpper(c) ==> 'a' <= r <= 'z' && r as int - 'a' as int == c as int - 'A' as int
    ensures !IsUpper(c) ==> r == c
  {
    if IsUpper(c) then (c as int - 'A' as int + 'a' as int) as char else c
  }

  function LowerCase(w: string): (r: string)
    ensures |r| == |w|
    ensures forall i :: 0 <= i < |w| ==> r[i] == ToLower(w[i])
  {
    seq(|w|, i requires 0 <= i < |w| => ToLower(w[i]))
  }

  function LowerCaseAll(parts: seq<string>): (r: seq<string>)
    ensures |r| == |parts|
    ensures forall i :: 0 <= i < |parts| ==> r[i] == LowerCase(parts[i])
  {
    seq(|parts|, i requires 0 <= i < |parts| => LowerCase(parts[i]))
  }

  /** `s` without its leading run of non-word characters. */
  function DropNonWord(s: string): (r: string)
    ensures |r| <= |s|
  {
    if s == [] || IsWordChar(s[0]) then s else DropNonWord(s[1..])
  }

  /** What `DropNonWord` leaves: a suffix that is empty or starts with a word
      character, after a prefix of non-word characters only. */
  lemma {:induction false} DropNonWordSuffix(s: string)
    ensures var r := DropNonWord(s);
      && r == s[|s| - |r|..]
      && (forall i :: 0 <= i < |s| - |r| ==> !IsWordChar(s[i]))
      && (r == [] || IsWordChar(r[0]))
  {
    if s != [] && !IsWordChar(s[0]) {
      DropNonWordSuffix(s[1..]);
      var r := DropNonWord(s);
      assert s[1..][|s| - 1 - |r|..] == s[|s| - |r|..];
      forall i | 0 <= i < |s| - |r| ensures !IsWordChar(s[i]) {
        if i > 0 { assert s[i] == s[1..][i - 1]; }
      }
    }
  }

  /** Step 1, `.replace(/\W+/g, ' ')`: each maximal run of non-word characters
      becomes one space. */
  function ReplaceNonWordRuns(s: string): (t: string)
    decreases |s|
  {
    if s == [] then []
    else if IsWordChar(s[0]) then [s[0]] + ReplaceNonWordRuns(s[1..])
    else " " + ReplaceNonWordRuns(DropNonWord(s[1..]))
  }

  /** Step 2, `.split(/ |\B(?=[A-Z])/)`, as the scan `String.prototype.split`
      performs: `cur` is the piece read so far and `afterWord` says whether the
      character before `t` is a word character. A space ends the piece and is
      dropped; an uppercase letter after a word character (`\B` before `[A-Z]`)
      ends the piece and starts the next one, except that, as in JavaScript, an
      empty match at the very start of the current piece cuts nothing. */
  function SplitFragments(t: string, afterWord: bool, cur: string): (parts: seq<string>)
    ensures |parts| >= 1
  {
    if t == [] then [cur]
    else if t[0] == ' ' then [cur] + SplitFragments(t[1..], false, [])
    else if IsUpper(t[0]) && afterWord && cur != [] then [cur] + SplitFragments(t[1..], true, [t[0]])
    else SplitFragments(t[1..], IsWordChar(t[0]), cur + [t[0]])
  }

  /** `snakeCase(string)` of bin/generate.js:39-45, on a string argument. */
  function SnakeCase(s: string): string
  {
    Text.Join(LowerCaseAll(SplitFragments(ReplaceNonWordRuns(s), false, [])), "_")
  }

  /** What snakeCase makes of each input character, read left to right:
      a maximal run of non-word characters gives one "_"; an uppercase letter
      gives its lowercase form, preceded by "_" exactly when the character
      before it is a word character; any other word character is kept. */
  function Normalized(s: string, afterWord: bool): string
    decreases |s|
  {
    if s == [] then []
    else if !IsWordChar(s[0]) then "_" + Normalized(DropNonWord(s[1..]), false)
    else WordCharOutput(s[0], afterWord) + Normalized(s[1..], true)
  }

  /** What a word character contributes: its lowercase form, after an extra
      "_" when it is an uppercase letter following a word character. */
  function WordCharOutput(c: char, afterWord: bool): string
  {
    if IsUpper(c) && afterWord then ['_', ToLower(c)] else [ToLower(c)]
  }

  /** The same reading on the text after step 1 (spaces for the runs). */
  function Render(t: string, afterWord: bool): string
  {
    if t == [] then []
    else if t[0] == ' ' then "_" + Render(t[1..], false)
    else if IsUpper(t[0]) && afterWord then "_" + [ToLower(t[0])] + Render(t[1..], true)
    else [ToLower(t[0])] + Render(t[1..], IsWordChar(t[0]))
  }

  lemma LowerCaseAppend(a: string, b: string)
    ensures LowerCase(a + b) == LowerCase(a) + LowerCase(b)
  {
  }

  /** Steps 2 to 4: splitting, lowercasing and joining with "_" renders the
      text character by character. */
  lemma {:induction false} SplitLowerJoin(t: string, afterWord: bool, cur: string)
    requires afterWord ==> cur != []
    ensures Text.Join(LowerCaseAll(SplitFragments(t, afterWord, cur)), "_")
            == LowerCase(cur) + Render(t, afterWord)
  {
    if t == [] {
    } else if t[0] == ' ' {
      SplitLowerJoin(t[1..], false, []);
      SpaceStep(t, afterWord, cur);
    } else if IsUpper(t[0]) && afterWord && cur != [] {
      SplitLowerJoin(t[1..], true, [t[0]]);
      CutStep(t, cur);
    } else {
      SplitLowerJoin(t[1..], IsWordChar(t[0]), cur + [t[0]]);
      ExtendStep(t, afterWord, cur);
    }
  }

  /** A space ends the current piece. */
  lemma SpaceStep(t: string, afterWord: bool, cur: string)
    requires t != [] && t[0] == ' '
    requires Text.Join(LowerCaseAll(SplitFragments(t[1..], false, [])), "_") == Render(t[1..], false)
    ensures Text.Join(LowerCaseAll(SplitFragments(t, afterWord, cur)), "_")
            == LowerCase(cur) + Render(t, afterWord)
  {
    JoinPiece(cur, SplitFragments(t[1..], false, []));
  }

  /** An uppercase letter after a word character starts a new piece. */
  lemma CutStep(t: string, cur: string)
    requires t != [] && t[0] != ' ' && IsUpper(t[0]) && cur != []
    requires Text.Join(LowerCaseAll(SplitFragments(t[1..], true, [t[0]])), "_")
             == LowerCase([t[0]]) + Render(t[1..], true)
    ensures Text.Join(LowerCaseAll(SplitFragments(t, true, cur)), "_")
            == LowerCase(cur) + Render(t, true)
  {
    var l, rest := [ToLower(t[0])], Render(t[1..], true);
    assert SplitFragments(t, true, cur) == [cur] + SplitFragments(t[1..], true, [t[0]]);
    assert Render(t, true) == "_" + l + rest;
    JoinPiece(cur, SplitFragments(t[1..], true, [t[0]]));
    assert LowerCase([t[0]]) == l;
    AppendAssoc(LowerCase(cur), "_", l + rest);
    AppendAssoc("_", l, rest);
  }

  /** Any other character extends the current piece. */
  lemma ExtendStep(t: string, afterWord: bool, cur: string)
    requires t != [] && t[0] != ' ' && !(IsUpper(t[0]) && afterWord && cur != [])
    requires afterWord ==> cur != []
    requires Text.Join(LowerCaseAll(SplitFragments(t[1..], IsWordChar(t[0]), cur + [t[0]])), "_")
             == LowerCase(cur + [t[0]]) + Render(t[1..], IsWordChar(t[0]))
    ensures Text.Join(LowerCaseAll(SplitFragments(t, afterWord, cur)), "_")
            == LowerCase(cur) + Render(t, afterWord)
  {
    var w, rest := IsWordChar(t[0]), Render(t[1..], IsWordChar(t[0]));
    assert SplitFragments(t, afterWord, cur) == SplitFragments(t[1..], w, cur + [t[0]]);
    assert Render(t, afterWord) == [ToLower(t[0])] + rest;
    LowerCaseAppend(cur, [t[0]]);
    assert LowerCase([t[0]]) == [ToLower(t[0])];
    AppendAssoc(LowerCase(cur), [ToLower(t[0])], rest);
  }

  /** Joining a finished piece in front of the pieces that follow it. */
  lemma JoinPiece(cur: string, rest: seq<string>)
    requires |rest| >= 1
    ensures Text.Join(LowerCaseAll([cur] + rest), "_")
            == LowerCase(cur) + "_" + Text.Join(LowerCaseAll(rest), "_")
  {
    assert LowerCaseAll([cur] + rest) == [LowerCase(cur)] + LowerCaseAll(rest);
    Text.JoinCons(LowerCase(cur), LowerCaseAll(rest), "_");
  }

  /** Step 1 followed by the rendering is the character-level reading. */
  lemma {:induction false} RenderReplaced(s: string, afterWord: bool)
    ensures Render(ReplaceNonWordRuns(s), afterWord) == Normalized(s, afterWord)
    decreases |s|
  {
    if s != [] {
      if IsWordChar(s[0]) {
        RenderReplaced(s[1..], true);
        var t := ReplaceNonWordRuns(s);
        assert t[0] == s[0] && t[1..] == ReplaceNonWordRuns(s[1..]);
      } else {
        RenderReplaced(DropNonWord(s[1..]), false);
        var t := ReplaceNonWordRuns(s);
        assert t[0] == ' ' && t[1..] == ReplaceNonWordRuns(DropNonWord(s[1..]));
      }
    }
  }

  /** snakeCase, step by step as written, is the character-level reading. */
  lemma SnakeCaseIsNormalized(s: string)
    ensures SnakeCase(s) == Normalized(s, false)
  {
    SplitLowerJoin(ReplaceNonWordRuns(s), false, []);
    RenderReplaced(s, false);
  }

  /** `r` is made of [a-z0-9_] only. */
  predicate AllSnake(r: string)
  {
    forall i :: 0 <= i < |r| ==> IsSnakeChar(r[i])
  }

  lemma AllSnakeAppend(a: string, b: string)
    requires AllSnake(a) && AllSnake(b)
    ensures AllSnake(a + b)
  {
    forall i | 0 <= i < |a + b| ensures IsSnakeChar((a + b)[i]) {
      if i < |a| { assert (a + b)[i] == a[i]; } else { assert (a + b)[i] == b[i - |a|]; }
    }
  }

  /** Every character of the character-level reading is in [a-z0-9_]. */
  lemma {:induction false} NormalizedAlphabet(s: string, afterWord: bool)
    ensures AllSnake(Normalized(s, afterWord))
    decreases |s|
  {
    if s != [] {
      if !IsWordChar(s[0]) {
        NormalizedAlphabet(DropNonWord(s[1..]), false);
        AllSnakeAppend("_", Normalized(DropNonWord(s[1..]), false));
      } else {
        NormalizedAlphabet(s[1..], true);
        var c := ToLower(s[0]);
        AllSnakeAppend([c], Normalized(s[1..], true));
        AllSnakeAppend("_", [c] + Normalized(s[1..], true));
        assert "_" + [c] + Normalized(s[1..], true) == "_" + ([c] + Normalized(s[1..], true));
      }
    }
  }

  /** A string made of [a-z0-9_] only is read back unchanged. */
  lemma {:induction false} NormalizedFixed(s: string, afterWord: bool)
    requires AllSnake(s)
    ensures Normalized(s, afterWord) == s
  {
    if s != [] {
      NormalizedFixed(s[1..], true);
      assert [s[0]] + s[1..] == s;
    }
  }

  /** The output of snakeCase holds only lowercase ASCII letters, digits and "_". */
  lemma SnakeCaseAlphabet(s: string)
    ensures AllSnake(SnakeCase(s))
  {
    SnakeCaseIsNormalized(s);
    NormalizedAlphabet(s, false);
  }

  /** snakeCase leaves a string unchanged exactly when the string is already
      made of [a-z0-9_] only. */
  lemma SnakeCaseFixedPoint(s: string)
    ensures SnakeCase(s) == s <==> AllSnake(s)
  {
    SnakeCaseAlphabet(s);
    if AllSnake(s) {
      SnakeCaseIsNormalized(s);
      NormalizedFixed(s, false);
    }
  }

  /** Normalising twice is normalising once. */
  lemma SnakeCaseIdempotent(s: string)
    ensures SnakeCase(SnakeCase(s)) == SnakeCase(s)
  {
    SnakeCaseAlphabet(s);
    SnakeCaseFixedPoint(SnakeCase(s));
  }

  /** Dropping a leading non-word run from `x + y` when the run ends inside `x`
      (or `y` begins with a word character). */
  lemma {:induction false} DropNonWordAppend(x: string, y: string)
    requires DropNonWord(x) != [] || y == [] || IsWordChar(y[0])
    ensures DropNonWord(x + y) == DropNonWord(x) + y
  {
    if x != [] {
      if !IsWordChar(x[0]) {
        DropNonWordAppend(x[1..], y);
        assert (x + y)[1..] == x[1..] + y;
      }
    } else {
      assert x + y == y;
    }
  }

  lemma AppendAssoc(a: string, b: string, c: string)
    ensures a + b + c == a + (b + c)
  {
  }

  /** Whether the character before what follows `x` is a word character. */
  function AfterWordAfter(x: string, afterWord: bool): bool
  {
    if x == [] then afterWord else IsWordChar(x[|x| - 1])
  }

  /** The character-level reading of `x + y` is that of `x` followed by that of
      `y`, provided no run of non-word characters straddles the cut. */
  lemma {:induction false} NormalizedAppend(x: string, y: string, afterWord: bool)
    requires x == [] || y == [] || IsWordChar(x[|x| - 1]) || IsWordChar(y[0])
    ensures Normalized(x + y, afterWord)
            == Normalized(x, afterWord) + Normalized(y, AfterWordAfter(x, afterWord))
    decreases |x|, 1
  {
    if x == [] {
      assert x + y == y;
    } else if !IsWordChar(x[0]) {
      NormalizedAppendSeparator(x, y, afterWord);
    } else {
      NormalizedAppendWord(x, y, afterWord);
    }
  }

  /** The case of `NormalizedAppend` where `x` starts with a non-word character. */
  lemma {:induction false} NormalizedAppendSeparator(x: string, y: string, afterWord: bool)
    requires x != [] && !IsWordChar(x[0])
    requires y == [] || IsWordChar(x[|x| - 1]) || IsWordChar(y[0])
    ensures Normalized(x + y, afterWord)
            == Normalized(x, afterWord) + Normalized(y, AfterWordAfter(x, afterWord))
    decreases |x|, 0
  {
    var d := DropNonWord(x[1..]);
    var rest := Normalized(y, AfterWordAfter(x, afterWord));
    assert Normalized(x + y, afterWord) == "_" + Normalized(d + y, false) by {
      SeparatorStep(x, y, afterWord);
    }
    assert Normalized(d + y, false) == Normalized(d, false) + rest by {
      SeparatorCut(x, y, afterWord);
      NormalizedAppend(d, y, false);
    }
    assert Normalized(x, afterWord) == "_" + Normalized(d, false);
    AppendAssoc("_", Normalized(d, false), rest);
  }

  /** What is left of a leading separator run in `x` still ends as `x` does. */
  lemma SeparatorCut(x: string, y: string, afterWord: bool)
    requires x != [] && !IsWordChar(x[0])
    requires y == [] || IsWordChar(x[|x| - 1]) || IsWordChar(y[0])
    ensures AfterWordAfter(DropNonWord(x[1..]), false) == AfterWordAfter(x, afterWord)
    ensures var d := DropNonWord(x[1..]);
            d == [] || y == [] || IsWordChar(d[|d| - 1]) || IsWordChar(y[0])
  {
    DropNonWordSuffix(x[1..]);
  }

  /** One unfolding of `Normalized` on `x + y` when `x` opens with a separator. */
  lemma SeparatorStep(x: string, y: string, afterWord: bool)
    requires x != [] && !IsWordChar(x[0])
    requires y == [] || IsWordChar(x[|x| - 1]) || IsWordChar(y[0])
    ensures Normalized(x + y, afterWord) == "_" + Normalized(DropNonWord(x[1..]) + y, false)
  {
    assert (x + y)[1..] == x[1..] + y;
    DropNonWordSuffix(x[1..]);
    DropNonWordAppend(x[1..], y);
    assert (x + y)[0] == x[0];
  }

  /** The case of `NormalizedAppend` where `x` starts with a word character. */
  lemma {:induction false} NormalizedAppendWord(x: string, y: string, afterWord: bool)
    requires x != [] && IsWordChar(x[0])
    requires y == [] || IsWordChar(x[|x| - 1]) || IsWordChar(y[0])
    ensures Normalized(x + y, afterWord)
            == Normalized(x, afterWord) + Normalized(y, AfterWordAfter(x, afterWord))
    decreases |x|, 0
  {
    var t := x[1..];
    var head := WordCharOutput(x[0], afterWord);
    var tail := Normalized(y, AfterWordAfter(x, afterWord));
    assert Normalized(x + y, afterWord) == head + Normalized(t + y, true) by {
      WordStep(x, y, afterWord);
    }
    assert Normalized(t + y, true) == Normalized(t, true) + tail by {
      WordCut(x, y, afterWord);
      NormalizedAppend(t, y, true);
    }
    assert Normalized(x, afterWord) == head + Normalized(t, true);
    AppendAssoc(head, Normalized(t, true), tail);
  }

  /** One unfolding of `Normalized` on `x + y` when `x` opens with a word character. */
  lemma WordStep(x: string, y: string, afterWord: bool)
    requires x != [] && IsWordChar(x[0])
    ensures Normalized(x + y, afterWord) == WordCharOutput(x[0], afterWord) + Normalized(x[1..] + y, true)
  {
    assert (x + y)[0] == x[0] && (x + y)[1..] == x[1..] + y;
  }

  /** The rest of `x` after its first character still ends as `x` does. */
  lemma WordCut(x: string, y: string, afterWord: bool)
    requires x != [] && IsWordChar(x[0])
    requires y == [] || IsWordChar(x[|x| - 1]) || IsWordChar(y[0])
    ensures AfterWordAfter(x[1..], true) == AfterWordAfter(x, afterWord)
    ensures var t := x[1..]; t == [] || y == [] || IsWordChar(t[|t| - 1]) || IsWordChar(y[0])
  {
    var t := x[1..];
    assert t != [] ==> t[|t| - 1] == x[|x| - 1];
  }

  /** A run of non-word characters ahead of `y` reads as one "_" and then `y`. */
  lemma NormalizedSeparatorRun(sep: string, y: string, afterWord: bool)
    requires |sep| > 0 && forall i :: 0 <= i < |sep| ==> !IsWordChar(sep[i])
    requires y == [] || IsWordChar(y[0])
    ensures Normalized(sep + y, afterWord) == "_" + Normalized(y, false)
  {
    var z := sep + y;
    assert DropNonWord(z[1..]) == y by {
      assert z[1..] == sep[1..] + y;
      var r := DropNonWord(sep[1..]);
      DropNonWordSuffix(sep[1..]);
      DropNonWordAppend(sep[1..], y);
    }
    assert z[0] == sep[0];
  }

  /** `SeparatorRun` on the character-level reading. */
  lemma NormalizedSeparatorBoundary(x: string, sep: string, y: string)
    requires x == [] || IsWordChar(x[|x| - 1])
    requires |sep| > 0 && forall i :: 0 <= i < |sep| ==> !IsWordChar(sep[i])
    requires y == [] || IsWordChar(y[0])
    ensures Normalized(x + sep + y, false) == Normalized(x, false) + "_" + Normalized(y, false)
  {
    assert Normalized(x + (sep + y), false)
        == Normalized(x, false) + Normalized(sep + y, AfterWordAfter(x, false)) by {
      NormalizedAppend(x, sep + y, false);
    }
    assert Normalized(sep + y, AfterWordAfter(x, false)) == "_" + Normalized(y, false) by {
      NormalizedSeparatorRun(sep, y, AfterWordAfter(x, false));
    }
    AppendAssoc(x, sep, y);
    AppendAssoc(Normalized(x, false), "_", Normalized(y, false));
  }

  /** Each maximal run of separators becomes exactly one "_": with `x` empty or
      ending in a word character, `sep` a non-empty run of non-word characters
      and `y` empty or starting with a word character, the run contributes one
      "_" and the two sides are normalised on their own. */
  lemma SeparatorRun(x: string, sep: string, y: string)
    requires x == [] || IsWordChar(x[|x| - 1])
    requires |sep| > 0 && forall i :: 0 <= i < |sep| ==> !IsWordChar(sep[i])
    requires y == [] || IsWordChar(y[0])
    ensures SnakeCase(x + sep + y) == SnakeCase(x) + "_" + SnakeCase(y)
  {
    NormalizedSeparatorBoundary(x, sep, y);
    SnakeCaseIsNormalized(x + sep + y);
    SnakeCaseIsNormalized(x);
    SnakeCaseIsNormalized(y);
  }

  /** A capital reads the same after a word character as elsewhere, except
      for one "_" in front. */
  lemma UpperStart(z: string, afterWord: bool)
    requires z != [] && IsUpper(z[0])
    ensures Normalized(z, afterWord) == (if afterWord then "_" else "") + Normalized(z, false)
  {
    var rest := Normalized(z[1..], true);
    assert Normalized(z, false) == [ToLower(z[0])] + rest;
    if afterWord {
      assert Normalized(z, true) == ['_', ToLower(z[0])] + rest;
      assert ['_', ToLower(z[0])] + rest == "_" + ([ToLower(z[0])] + rest);
    }
  }

  /** `UpperBoundary` on the character-level reading. */
  lemma NormalizedUpperBoundary(x: string, z: string)
    requires z != [] && IsUpper(z[0])
    ensures Normalized(x + z, false)
            == Normalized(x, false) + (if AfterWordAfter(x, false) then "_" else "") + Normalized(z, false)
  {
    var sep := if AfterWordAfter(x, false) then "_" else "";
    assert Normalized(x + z, false) == Normalized(x, false) + Normalized(z, AfterWordAfter(x, false)) by {
      NormalizedAppend(x, z, false);
    }
    assert Normalized(z, AfterWordAfter(x, false)) == sep + Normalized(z, false) by {
      UpperStart(z, AfterWordAfter(x, false));
    }
    AppendAssoc(Normalized(x, false), sep, Normalized(z, false));
  }

  /** An uppercase letter gets an extra "_" in front of it exactly when the
      character before it is a word character: cutting `x + z` just before
      the capital that opens `z`. */
  lemma UpperBoundary(x: string, z: string)
    requires z != [] && IsUpper(z[0])
    ensures SnakeCase(x + z)
            == SnakeCase(x) + (if x != [] && IsWordChar(x[|x| - 1]) then "_" else "") + SnakeCase(z)
  {
    NormalizedUpperBoundary(x, z);
    SnakeCaseIsNormalized(x + z);
    SnakeCaseIsNormalized(x);
    SnakeCaseIsNormalized(z);
  }
}
