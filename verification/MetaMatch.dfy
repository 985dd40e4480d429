/**
 The wildcard matcher of gnu-efi: a declarative language of patterns, and the backtracking
 matcher that decides it. Strings and patterns are NUL-terminated.
 */
module MetaMatching {
  import opened WideStrings
  import opened Words

  const STAR: CHAR16 := 42
  const QUESTION: CHAR16 := 63
  const OPEN: CHAR16 := 91
  const CLOSE: CHAR16 := 93
  const DASH: CHAR16 := 45

  datatype Token = Star | Any | Set(body: seq<CHAR16>) | Unclosed | Literal(c: CHAR16)

  /**
   Element `k` of a set body admits `c`. A dash stands for the range from the element before it,
   or from zero, to the element after it, and always for that last element; as the last element
   it admits nothing.
   */
  predicate AdmitsAt(body: seq<CHAR16>, k: nat, c: CHAR16)
    requires k < |body|
  {
    if body[k] != DASH then c == body[k]
    else k + 1 < |body| && ((if k == 0 then 0 else body[k - 1]) <= c <= body[k + 1] || c == body[k + 1])
  }

  predicate InSet(body: seq<CHAR16>, c: CHAR16)
  {
    exists k :: 0 <= k < |body| && AdmitsAt(body, k, c)
  }

  /** The words one token stands for. */
  predicate Accepts(t: Token, w: seq<CHAR16>)
  {
    match t
    case Star => true
    case Any => |w| == 1
    case Set(body) => |w| == 1 && InSet(body, w[0])
    case Unclosed => false
    case Literal(c) => w == [c]
  }

  function Concat(words: seq<seq<CHAR16>>): seq<CHAR16>
  {
    if words == [] then [] else words[0] + Concat(words[1..])
  }

  /** `s` is the concatenation of `words`, one for each token in order. */
  ghost predicate Spells(words: seq<seq<CHAR16>>, ts: seq<Token>, s: seq<CHAR16>)
  {
    |words| == |ts| && Concat(words) == s && forall i :: 0 <= i < |ts| ==> Accepts(ts[i], words[i])
  }

  ghost predicate InLanguage(ts: seq<Token>, s: seq<CHAR16>)
  {
    exists words :: Spells(words, ts, s)
  }

  lemma EmptyLanguage(s: seq<CHAR16>)
    ensures InLanguage([], s) <==> s == []
  {
    if s == [] {
      assert Spells([], [], s);
    }
  }

  /** Drops the first word. */
  lemma FirstWord(ts: seq<Token>, s: seq<CHAR16>) returns (n: nat)
    requires ts != [] && InLanguage(ts, s)
    ensures n <= |s| && Accepts(ts[0], s[..n]) && InLanguage(ts[1..], s[n..])
  {
    hide Accepts;
    var words :| Spells(words, ts, s);
    n := |words[0]|;
    assert s[..n] == words[0] && s[n..] == Concat(words[1..]);
    assert Spells(words[1..], ts[1..], s[n..]);
  }

  /** Puts a first word in front. */
  lemma PrependWord(ts: seq<Token>, s: seq<CHAR16>, n: nat)
    requires ts != [] && n <= |s| && Accepts(ts[0], s[..n]) && InLanguage(ts[1..], s[n..])
    ensures InLanguage(ts, s)
  {
    hide Accepts;
    var rest :| Spells(rest, ts[1..], s[n..]);
    var words := [s[..n]] + rest;
    assert words[1..] == rest && s == s[..n] + s[n..];
    assert forall i :: 0 < i < |ts| ==> ts[i] == ts[1..][i - 1] && words[i] == rest[i - 1];
    assert Spells(words, ts, s);
  }

  lemma StarLanguage(ts: seq<Token>, s: seq<CHAR16>)
    requires ts != [] && ts[0] == Star
    ensures InLanguage(ts, s) <==> exists n :: 0 <= n <= |s| && InLanguage(ts[1..], s[n..])
  {
    hide InLanguage;
    if InLanguage(ts, s) {
      var n := FirstWord(ts, s);
    }
    if n: nat :| n <= |s| && InLanguage(ts[1..], s[n..]) {
      PrependWord(ts, s, n);
    }
  }

  /** A token other than the star takes exactly one character. */
  lemma OneLanguage(ts: seq<Token>, s: seq<CHAR16>)
    requires ts != [] && ts[0] != Star
    ensures InLanguage(ts, s) <==> s != [] && Accepts(ts[0], s[..1]) && InLanguage(ts[1..], s[1..])
  {
    hide InLanguage, InSet;
    if InLanguage(ts, s) {
      var n := FirstWord(ts, s);
      assert n == 1;
    }
    if s != [] && Accepts(ts[0], s[..1]) && InLanguage(ts[1..], s[1..]) {
      PrependWord(ts, s, 1);
    }
  }

  // Patterns as text.

  /** Where a set whose body starts at `k` ends: at its closing bracket, or at the NUL if it has none. */
  function SetEnd(pat: seq<CHAR16>, k: nat): (e: nat)
    requires Terminated(pat) && k < |pat|
    ensures k <= e < |pat| && (e < |pat| - 1 ==> pat[e] == CLOSE)
    ensures forall x :: k <= x < e ==> pat[x] != CLOSE
    decreases |pat| - k
  {
    if k == |pat| - 1 || pat[k] == CLOSE then k else SetEnd(pat, k + 1)
  }

  /** The tokens a pattern spells from position `j` on. A set that is not closed stands for no word. */
  function Tokens(pat: seq<CHAR16>, j: nat): (ts: seq<Token>)
    requires Terminated(pat) && j < |pat|
    ensures ts == [] <==> pat[j] == 0
    decreases |pat| - j
  {
    if j == |pat| - 1 then []
    else if pat[j] == OPEN then
      var e := SetEnd(pat, j + 1);
      if e < |pat| - 1 then [Set(pat[j + 1..e])] + Tokens(pat, e + 1) else [Unclosed]
    else
      [if pat[j] == STAR then Star else if pat[j] == QUESTION then Any else Literal(pat[j])] + Tokens(pat, j + 1)
  }

  /** The string from position `i` on. */
  function Rest(b: seq<CHAR16>, i: nat): seq<CHAR16>
    requires i < |b|
  {
    b[i..|b| - 1]
  }

  ghost predicate Matches(str: seq<CHAR16>, i: nat, pat: seq<CHAR16>, j: nat)
    requires i < |str| && Terminated(pat) && j < |pat|
  {
    InLanguage(Tokens(pat, j), Rest(str, i))
  }

  /** Some suffix of the string matches. */
  ghost predicate MatchesLater(str: seq<CHAR16>, i: nat, pat: seq<CHAR16>, j: nat)
    requires i < |str| && Terminated(pat) && j < |pat|
  {
    exists n :: i <= n < |str| && InLanguage(Tokens(pat, j), Rest(str, n))
  }

  lemma LaterStep(str: seq<CHAR16>, i: nat, pat: seq<CHAR16>, j: nat)
    requires i < |str| && Terminated(pat) && j < |pat|
    ensures MatchesLater(str, i, pat, j)
       <==> Matches(str, i, pat, j) || (i + 1 < |str| && MatchesLater(str, i + 1, pat, j))
  {
    hide InLanguage, Rest, Tokens;
    if n :| i <= n < |str| && InLanguage(Tokens(pat, j), Rest(str, n)) {
      assert n == i || i + 1 <= n;
    }
  }

  lemma RestStep(str: seq<CHAR16>, i: nat)
    requires Terminated(str) && i < |str|
    ensures Rest(str, i) == [] <==> str[i] == 0
    ensures str[i] != 0 ==> i + 1 < |str| && Rest(str, i)[1..] == Rest(str, i + 1) && Rest(str, i)[..1] == [str[i]]
  {
  }

  lemma MatchEnd(str: seq<CHAR16>, i: nat, pat: seq<CHAR16>, j: nat)
    requires Terminated(str) && Terminated(pat) && i < |str| && j < |pat| && pat[j] == 0
    ensures Matches(str, i, pat, j) <==> str[i] == 0
  {
    RestStep(str, i);
    EmptyLanguage(Rest(str, i));
  }

  lemma MatchStar(str: seq<CHAR16>, i: nat, pat: seq<CHAR16>, j: nat)
    requires Terminated(str) && Terminated(pat) && i < |str| && j < |pat| && pat[j] == STAR
    ensures j + 1 < |pat|
    ensures Matches(str, i, pat, j) <==> MatchesLater(str, i, pat, j + 1)
  {
    var s := Rest(str, i);
    assert Tokens(pat, j)[1..] == Tokens(pat, j + 1);
    hide InLanguage;
    StarLanguage(Tokens(pat, j), s);
    assert forall n :: i <= n < |str| ==> Rest(str, n) == s[n - i..];
    if m: nat :| m <= |s| && InLanguage(Tokens(pat, j)[1..], s[m..]) {
      assert Rest(str, i + m) == s[m..];
    }
  }

  /** A token of one character, other than a set. */
  lemma MatchOne(str: seq<CHAR16>, i: nat, pat: seq<CHAR16>, j: nat)
    requires Terminated(str) && Terminated(pat) && i < |str| && j < |pat|
    requires pat[j] != 0 && pat[j] != STAR && pat[j] != OPEN
    ensures j + 1 < |pat|
    ensures Matches(str, i, pat, j)
       <==> str[i] != 0 && (pat[j] == QUESTION || str[i] == pat[j]) && Matches(str, i + 1, pat, j + 1)
  {
    assert Tokens(pat, j)[1..] == Tokens(pat, j + 1);
    RestStep(str, i);
    OneLanguage(Tokens(pat, j), Rest(str, i));
  }

  lemma TokensOfSet(pat: seq<CHAR16>, j: nat)
    requires Terminated(pat) && j < |pat| && pat[j] == OPEN
    ensures j + 1 < |pat|
    ensures var e := SetEnd(pat, j + 1);
      Tokens(pat, j) == if e < |pat| - 1 then [Set(pat[j + 1..e])] + Tokens(pat, e + 1) else [Unclosed]
  {
  }

  /** A set. */
  lemma MatchSet(str: seq<CHAR16>, i: nat, pat: seq<CHAR16>, j: nat)
    requires Terminated(str) && Terminated(pat) && i < |str| && j < |pat| && pat[j] == OPEN
    ensures j + 1 < |pat|
    ensures var e := SetEnd(pat, j + 1);
      Matches(str, i, pat, j)
      <==> e < |pat| - 1 && str[i] != 0 && InSet(pat[j + 1..e], str[i]) && Matches(str, i + 1, pat, e + 1)
  {
    TokensOfSet(pat, j);
    RestStep(str, i);
    hide InLanguage, InSet, SetEnd, Rest, Tokens, Terminated;
    OneLanguage(Tokens(pat, j), Rest(str, i));
  }

  // What some patterns mean, written out.

  /** A set without a dash admits its own characters. */
  lemma PlainSet(body: seq<CHAR16>, c: CHAR16)
    requires 45 !in body
    ensures InSet(body, c) <==> c in body
  {
    if c in body {
      var k :| 0 <= k < |body| && body[k] == c;
      assert AdmitsAt(body, k, c);
    }
  }

  /** A set of two characters with a dash between them admits the characters from one to the other. */
  lemma RangeSet(a: CHAR16, b: CHAR16, c: CHAR16)
    requires a != 45 && b != 45
    ensures InSet([a, 45, b], c) <==> c == a || c == b || a <= c <= b
  {
    var body := [a, 45, b];
    assert AdmitsAt(body, 0, c) <==> c == a;
    assert AdmitsAt(body, 1, c) <==> a <= c <= b || c == b;
    assert AdmitsAt(body, 2, c) <==> c == b;
  }

  /** A dash in front stands for the range from zero; at the end it admits nothing. */
  lemma EdgeDashes(a: CHAR16, c: CHAR16)
    requires a != 45
    ensures InSet([45, a], c) <==> c <= a
    ensures InSet([a, 45], c) <==> c == a
  {
    assert AdmitsAt([45, a], 0, c) <==> c <= a;
    assert AdmitsAt([45, a], 1, c) <==> c == a;
    assert AdmitsAt([a, 45], 0, c) <==> c == a;
    assert !AdmitsAt([a, 45], 1, c);
  }

  /** "[x]" matches "x" and nothing else. */
  lemma SetPattern(str: seq<CHAR16>, x: CHAR16)
    requires Terminated(str) && x != 0 && x != 45 && x != 93
    ensures Matches(str, 0, [91, x, 93, 0], 0) <==> str == [x, 0]
  {
    var pat := [91, x, 93, 0];
    assert SetEnd(pat, 1) == 2 by { assert SetEnd(pat, 2) == 2; }
    assert pat[1..2] == [x];
    hide Matches;
    MatchSet(str, 0, pat, 0);
    PlainSet([x], str[0]);
    if str[0] == x { MatchEnd(str, 1, pat, 3); }
  }

  /** A pattern without '*', '?' and '[' matches itself and nothing else. */
  lemma {:induction false} PlainPattern(str: seq<CHAR16>, i: nat, pat: seq<CHAR16>, j: nat)
    requires Terminated(str) && Terminated(pat) && i < |str| && j < |pat|
    requires 42 !in pat && 63 !in pat && 91 !in pat
    ensures Matches(str, i, pat, j) <==> str[i..] == pat[j..]
    decreases |pat| - j
  {
    hide Matches;
    if pat[j] == 0 {
      MatchEnd(str, i, pat, j);
      assert pat[j..] == [0];
      assert str[i..][0] == str[i];
    } else {
      assert pat[j] in pat;
      MatchOne(str, i, pat, j);
      assert str[i..][0] == str[i] && pat[j..][0] == pat[j];
      assert pat[j..] == [pat[j]] + pat[j + 1..];
      if str[i] == pat[j] {
        assert str[i..] == [str[i]] + str[i + 1..];
        PlainPattern(str, i + 1, pat, j + 1);
      }
    }
  }

  /** "*" matches every string, and "?" those of one character. */
  lemma WildPatterns(str: seq<CHAR16>)
    requires Terminated(str)
    ensures Matches(str, 0, [42, 0], 0)
    ensures Matches(str, 0, [63, 0], 0) <==> |str| == 2
  {
    hide Matches, MatchesLater;
    MatchStar(str, 0, [42, 0], 0);
    EndLater(str, 0, [42, 0]);
    MatchOne(str, 0, [63, 0], 0);
    if str[0] != 0 { MatchEnd(str, 1, [63, 0], 1); }
  }

  lemma {:induction false} EndLater(str: seq<CHAR16>, i: nat, pat: seq<CHAR16>)
    requires Terminated(str) && Terminated(pat) && i < |str| && |pat| == 2
    ensures MatchesLater(str, i, pat, 1)
    decreases |str| - i
  {
    hide Matches, MatchesLater;
    LaterStep(str, i, pat, 1);
    if str[i] == 0 { MatchEnd(str, i, pat, 1); } else { EndLater(str, i + 1, pat); }
  }

  // What the matcher demands of the pattern.

  /** A scan for `c` that finds nothing in `body` stops at a dash in its last place. */
  ghost predicate StopsShort(body: seq<CHAR16>, c: CHAR16)
  {
    body != [] && body[|body| - 1] == DASH && !InSet(body, c)
  }

  /**
   The matcher stays in the pattern: wherever it comes to a set that is not closed, the string is at
   its end or the scan stops short. A star tries the rest of the string from left to right and goes
   no further than the first suffix that matches.
   */
  ghost predicate Safe(str: seq<CHAR16>, i: nat, pat: seq<CHAR16>, j: nat)
    requires Terminated(str) && Terminated(pat) && i < |str| && j < |pat|
    decreases |pat| - j, 0, 0
  {
    if pat[j] == 0 then true
    else if pat[j] == STAR then
      SafeStar(str, i, pat, j + 1)
    else if pat[j] == OPEN then
      var e := SetEnd(pat, j + 1);
      if str[i] == 0 then true
      else if e < |pat| - 1 then InSet(pat[j + 1..e], str[i]) ==> Safe(str, i + 1, pat, e + 1)
      else StopsShort(pat[j + 1..e], str[i])
    else
      str[i] != 0 && (pat[j] == QUESTION || str[i] == pat[j]) ==> Safe(str, i + 1, pat, j + 1)
  }

  ghost predicate SafeStar(str: seq<CHAR16>, i: nat, pat: seq<CHAR16>, j: nat)
    requires Terminated(str) && Terminated(pat) && i < |str| && j < |pat|
    decreases |pat| - j, 1, |str| - i
  {
    Safe(str, i, pat, j) && (str[i] != 0 && !Matches(str, i, pat, j) ==> SafeStar(str, i + 1, pat, j))
  }

  /** A set body that admits some character. */
  predicate Passable(body: seq<CHAR16>) { body != [] && body != [DASH] }

  lemma PassableChar(body: seq<CHAR16>) returns (c: CHAR16)
    requires Passable(body) && 0 !in body
    ensures c != 0 && InSet(body, c)
  {
    c := if body[0] == DASH then body[1] else body[0];
    assert AdmitsAt(body, 0, c) && c in body;
  }

  lemma AdmitsNothing(body: seq<CHAR16>, c: CHAR16)
    requires !Passable(body)
    ensures !InSet(body, c) && (StopsShort(body, c) <==> body == [DASH])
  {
  }

  /**
   What the pattern alone must be like: it has no set that is not closed, unless its body is a lone
   dash or a set before it admits nothing.
   */
  predicate Harmless(pat: seq<CHAR16>, j: nat)
    requires Terminated(pat) && j < |pat|
    decreases |pat| - j
  {
    if pat[j] == 0 then true
    else if pat[j] == OPEN then
      var e := SetEnd(pat, j + 1);
      if e < |pat| - 1 then Passable(pat[j + 1..e]) ==> Harmless(pat, e + 1) else pat[j + 1..e] == [DASH]
    else Harmless(pat, j + 1)
  }

  lemma {:induction false} HarmlessIsSafe(str: seq<CHAR16>, i: nat, pat: seq<CHAR16>, j: nat)
    requires Terminated(str) && Terminated(pat) && i < |str| && j < |pat| && Harmless(pat, j)
    ensures Safe(str, i, pat, j)
    decreases |pat| - j, 0, 0
  {
    hide InSet, SetEnd, Matches, SafeStar, Passable, StopsShort;
    if pat[j] == STAR {
      HarmlessIsSafeStar(str, i, pat, j + 1);
    } else if pat[j] == OPEN {
      var e := SetEnd(pat, j + 1);
      var body := pat[j + 1..e];
      if !Passable(body) {
        AdmitsNothing(body, str[i]);
      } else if e < |pat| - 1 && str[i] != 0 {
        HarmlessIsSafe(str, i + 1, pat, e + 1);
      }
      LoneDash();
    } else if pat[j] != 0 && str[i] != 0 {
      HarmlessIsSafe(str, i + 1, pat, j + 1);
    }
  }

  lemma LoneDash()
    ensures !Passable([DASH])
  {
  }

  lemma {:induction false} HarmlessIsSafeStar(str: seq<CHAR16>, i: nat, pat: seq<CHAR16>, j: nat)
    requires Terminated(str) && Terminated(pat) && i < |str| && j < |pat| && Harmless(pat, j)
    ensures SafeStar(str, i, pat, j)
    decreases |pat| - j, 1, |str| - i
  {
    hide Matches, Safe, Harmless;
    HarmlessIsSafe(str, i, pat, j);
    if str[i] != 0 { HarmlessIsSafeStar(str, i + 1, pat, j); }
  }

  /** A character in front of the string makes no difference behind it. */
  lemma {:induction false} SafeBehind(c: CHAR16, str: seq<CHAR16>, i: nat, pat: seq<CHAR16>, j: nat)
    requires Terminated(str) && Terminated(pat) && i < |str| && j < |pat| && Terminated([c] + str)
    ensures Safe([c] + str, i + 1, pat, j) <==> Safe(str, i, pat, j)
    decreases |pat| - j, 0, 0
  {
    hide InSet, SetEnd, Matches, SafeStar, StopsShort;
    if pat[j] == STAR {
      SafeStarBehind(c, str, i, pat, j + 1);
    } else if pat[j] == OPEN {
      var e := SetEnd(pat, j + 1);
      if e < |pat| - 1 && str[i] != 0 { SafeBehind(c, str, i + 1, pat, e + 1); }
    } else if pat[j] != 0 && str[i] != 0 {
      SafeBehind(c, str, i + 1, pat, j + 1);
    }
  }

  lemma {:induction false} SafeStarBehind(c: CHAR16, str: seq<CHAR16>, i: nat, pat: seq<CHAR16>, j: nat)
    requires Terminated(str) && Terminated(pat) && i < |str| && j < |pat| && Terminated([c] + str)
    ensures SafeStar([c] + str, i + 1, pat, j) <==> SafeStar(str, i, pat, j)
    decreases |pat| - j, 1, |str| - i
  {
    hide Safe;
    assert Rest([c] + str, i + 1) == Rest(str, i);
    SafeBehind(c, str, i, pat, j);
    if str[i] != 0 { SafeStarBehind(c, str, i + 1, pat, j); }
  }

  /** A string on which the matcher reads past the pattern. */
  lemma {:induction false} OverRead(pat: seq<CHAR16>, j: nat) returns (str: seq<CHAR16>)
    requires Terminated(pat) && j < |pat| && !Harmless(pat, j)
    ensures Terminated(str) && !Safe(str, 0, pat, j)
    decreases |pat| - j
  {
    hide InSet, SetEnd, Matches, Passable;
    if pat[j] == STAR {
      str := OverRead(pat, j + 1);
    } else {
      var c: CHAR16, next := if pat[j] == QUESTION then 1 else pat[j], j + 1;
      if pat[j] == OPEN {
        var e := SetEnd(pat, j + 1);
        var body := pat[j + 1..e];
        assert forall k :: 0 <= k < |body| ==> body[k] == pat[j + 1 + k];
        if Passable(body) {
          c := PassableChar(body);
        } else {
          AdmitsNothing(body, c);
        }
        next := e + 1;
      }
      if next == |pat| { return [c, 0]; }
      var rest := OverRead(pat, next);
      str := [c] + rest;
      SafeBehind(c, rest, 0, pat, next);
    }
  }

  /** The patterns on which the matcher is safe whatever the string. */
  lemma HarmlessExactly(pat: seq<CHAR16>)
    requires Terminated(pat)
    ensures Harmless(pat, 0) <==> forall str: seq<CHAR16> :: Terminated(str) ==> Safe(str, 0, pat, 0)
  {
    hide Harmless, Safe, Terminated;
    assert |pat| > 0 by { PatternSome(pat); }
    if Harmless(pat, 0) {
      forall str: seq<CHAR16> | Terminated(str) ensures str != [] && Safe(str, 0, pat, 0) {
        PatternSome(str);
        HarmlessIsSafe(str, 0, pat, 0);
      }
    } else {
      var str := OverRead(pat, 0);
    }
  }

  lemma PatternSome(s: seq<CHAR16>)
    requires Terminated(s)
    ensures s != []
  {
  }

  /** Every opening bracket that starts a set has its closing bracket. */
  predicate Closed(pat: seq<CHAR16>, j: nat)
    requires Terminated(pat) && j < |pat|
    decreases |pat| - j
  {
    if pat[j] == 0 then true
    else if pat[j] == OPEN then var e := SetEnd(pat, j + 1); e < |pat| - 1 && Closed(pat, e + 1)
    else Closed(pat, j + 1)
  }

  /** With closed sets the matcher is safe on every string. */
  lemma ClosedIsSafe(str: seq<CHAR16>, i: nat, pat: seq<CHAR16>, j: nat)
    requires Terminated(str) && Terminated(pat) && i < |str| && j < |pat| && Closed(pat, j)
    ensures Safe(str, i, pat, j)
  {
    ClosedIsHarmless(pat, j);
    HarmlessIsSafe(str, i, pat, j);
  }

  lemma {:induction false} ClosedIsHarmless(pat: seq<CHAR16>, j: nat)
    requires Terminated(pat) && j < |pat| && Closed(pat, j)
    ensures Harmless(pat, j)
    decreases |pat| - j
  {
    hide Passable, SetEnd;
    if pat[j] != 0 {
      ClosedIsHarmless(pat, if pat[j] == OPEN then SetEnd(pat, j + 1) + 1 else j + 1);
    }
  }

  /** A match that reads past the pattern: the pattern "[a" on the string "a". */
  lemma UnclosedSet()
    ensures var (str, pat) := ([97, 0], [OPEN, 97, 0]);
      Terminated(str) && Terminated(pat) && !Safe(str, 0, pat, 0)
  {
    assert AdmitsAt([97], 0, 97);
    assert SetEnd([OPEN, 97, 0], 1) == 2;
  }

  /** An unclosed set that the match does not come to is harmless: the pattern "a[b" on the string "x". */
  lemma UnreachedSet()
    ensures var (str, pat) := ([120, 0], [97, OPEN, 98, 0]);
      Terminated(str) && Terminated(pat) && !Closed(pat, 0) && Safe(str, 0, pat, 0) && !Matches(str, 0, pat, 0)
  {
    var (str, pat) := ([120, 0], [97, OPEN, 98, 0]);
    assert SetEnd(pat, 2) == 3;
    MatchOne(str, 0, pat, 0);
  }

  /**
   Scans a set for the character `c`, and on success moves past its closing bracket. A set that is
   not closed is left past the NUL, unless the scan stops short.
   */
  method ScanSet(c: CHAR16, pat: seq<CHAR16>, start: nat) returns (found: bool, j: nat)
    requires Terminated(pat) && start < |pat|
    ensures var e := SetEnd(pat, start);
      if e < |pat| - 1 then (found <==> InSet(pat[start..e], c)) && (found ==> j == e + 1)
      else (found <==> !StopsShort(pat[start..e], c)) && (found ==> j == |pat|)
  {
    ghost var e := SetEnd(pat, start);
    ghost var body := pat[start..e];
    hide SetEnd;
    assert forall k :: start <= k < e ==> pat[k] == body[k - start];
    j := start;
    var l: CHAR16 := 0;
    var p: CHAR16;
    while true
      invariant start <= j <= e
      invariant forall k :: 0 <= k < j - start ==> !AdmitsAt(body, k, c)
      invariant j == start ==> l == 0
      invariant start < j < e && pat[j] == DASH ==> l == pat[j - 1]
      invariant start < j == e ==> pat[j - 1] != DASH
      decreases e - j
    {
      p := pat[j];
      j := j + 1;
      if p == 0 {
        break;
      }
      if p == CLOSE {
        assert j - 1 == e;
        return false, j;
      }
      if p == DASH {
        p := pat[j];
        if p == 0 || p == CLOSE {
          assert j == e && !AdmitsAt(body, j - 1 - start, c);
          return false, j;
        }
        if c >= l && c <= p {
          assert AdmitsAt(body, j - 1 - start, c);
          break;
        }
      }
      l := p;
      if c == p {
        assert AdmitsAt(body, j - 1 - start, c);
        break;
      }
    }
    assert if p == 0 then j == |pat| == e + 1 && !StopsShort(body, c) else InSet(body, c);
    while p != 0 && p != CLOSE
      invariant if j <= e then start <= j && p != 0 && p != CLOSE else j == e + 1 && p == pat[e]
      decreases e + 1 - j
    {
      p := pat[j];
      j := j + 1;
    }
    found := true;
  }

  /**
   Decides whether the string from position `i` is in the language of the pattern from position `j`,
   and gives no answer exactly if it reads past the pattern's NUL.
   */
  method MetaMatch(str: seq<CHAR16>, i: nat, pat: seq<CHAR16>, j: nat) returns (matched: Option<bool>)
    requires Terminated(str) && Terminated(pat) && i < |str| && j < |pat|
    ensures matched.Some? <==> Safe(str, i, pat, j)
    ensures matched.Some? ==> (matched.value <==> Matches(str, i, pat, j))
    decreases |pat| - j
  {
    hide Matches, MatchesLater, InSet, SetEnd, StopsShort;
    var s, q := i, j;
    while true
      invariant i <= s < |str| && j <= q < |pat|
      invariant Safe(str, s, pat, q) <==> Safe(str, i, pat, j)
      invariant Matches(str, s, pat, q) <==> Matches(str, i, pat, j)
      decreases |pat| - q
    {
      var p := pat[q];
      if p == 0 {
        MatchEnd(str, s, pat, q);
        return Some(str[s] == 0);
      } else if p == STAR {
        MatchStar(str, s, pat, q);
        ghost var from := s;
        q := q + 1;
        while str[s] != 0
          invariant from <= s < |str|
          invariant SafeStar(str, s, pat, q) <==> SafeStar(str, from, pat, q)
          invariant MatchesLater(str, from, pat, q) <==> MatchesLater(str, s, pat, q)
          decreases |str| - s
        {
          var found := MetaMatch(str, s, pat, q);
          LaterStep(str, s, pat, q);
          if found != Some(false) {
            return found;
          }
          s := s + 1;
        }
        matched := MetaMatch(str, s, pat, q);
        LaterStep(str, s, pat, q);
        return;
      } else if p == OPEN {
        MatchSet(str, s, pat, q);
        var c := str[s];
        if c == 0 {
          return Some(false);
        }
        var found;
        found, q := ScanSet(c, pat, q + 1);
        if !found {
          return Some(false);
        }
        s := s + 1;
        // The next read is past the NUL.
        if q == |pat| {
          return None;
        }
      } else {
        MatchOne(str, s, pat, q);
        var c := str[s];
        if p == QUESTION {
          if c == 0 {
            return Some(false);
          }
        } else if c != p {
          return Some(false);
        }
        s := s + 1;
        q := q + 1;
      }
    }
  }
}
