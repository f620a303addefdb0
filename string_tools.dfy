/** The pure string utilities of g2o's `string_tools.cpp`: whitespace
    trimming, ASCII case mapping, splitting at a set of delimiter characters,
    and prefix / suffix tests. Each operation is modelled as the source writes
    it, on top of the `std::string` model in `CppString` (positions, `npos`
    and unsigned wrap-around included), and is proved against an independent
    definition of what it computes. */
module StringTools {

  import opened CppString

  // ---------------------------------------------------------------------
  // Whitespace
  // ---------------------------------------------------------------------

  /** The characters the trim functions remove: space, tab and newline. */
  const WHITESPACE: set<char> := {' ', '\t', '\n'}

  predicate IsSpace(c: char)
  {
    c in WHITESPACE
  }

  predicate AllSpace(s: seq<char>)
  {
    forall i :: 0 <= i < |s| ==> IsSpace(s[i])
  }

  /** Where the text of `s` starts when read from index `i` on: the first
      index at or after `i` that holds no whitespace, or `|s|`. */
  function SkipSpaces(s: seq<char>, i: nat): (r: nat)
    requires i <= |s|
    ensures i <= r <= |s|
    ensures forall k :: i <= k < r ==> IsSpace(s[k])
    ensures r == |s| || !IsSpace(s[r])
    decreases |s| - i
  {
    if i == |s| || !IsSpace(s[i]) then i else SkipSpaces(s, i + 1)
  }

  /** Where the text of `s[..j]` ends: the index just past its last
      non-whitespace character, or 0. */
  function SkipSpacesBack(s: seq<char>, j: nat): (r: nat)
    requires j <= |s|
    ensures r <= j
    ensures forall k :: r <= k < j ==> IsSpace(s[k])
    ensures r == 0 || !IsSpace(s[r - 1])
  {
    if j == 0 || !IsSpace(s[j - 1]) then j else SkipSpacesBack(s, j - 1)
  }

  /** Any `m` with only whitespace in `[i, m)` and no whitespace at `m` is
      where `SkipSpaces` stops. */
  lemma SkipSpacesIs(s: seq<char>, i: nat, m: nat)
    requires i <= m <= |s|
    requires forall k :: i <= k < m ==> IsSpace(s[k])
    requires m == |s| || !IsSpace(s[m])
    ensures SkipSpaces(s, i) == m
  {
  }

  /** Any `m` with only whitespace in `[m, j)` and no whitespace just before
      `m` is where `SkipSpacesBack` stops. */
  lemma SkipSpacesBackIs(s: seq<char>, j: nat, m: nat)
    requires m <= j <= |s|
    requires forall k :: m <= k < j ==> IsSpace(s[k])
    requires m == 0 || !IsSpace(s[m - 1])
    ensures SkipSpacesBack(s, j) == m
  {
  }

  /** `find_first_not_of(" \t\n")` is `npos` exactly on all-whitespace input,
      and otherwise the index where the text of `s` starts. */
  lemma FirstNotOfIsStart(s: seq<char>)
    requires Fits(s)
    ensures var b := FindFirstNotOf(s, WHITESPACE, 0);
      (b == NPOS <==> AllSpace(s)) &&
      (b == NPOS ==> SkipSpaces(s, 0) == |s|) &&
      (b != NPOS ==> b == SkipSpaces(s, 0) < |s|)
  {
    var b := FindFirstNotOf(s, WHITESPACE, 0);
    SkipSpacesIs(s, 0, if b == NPOS then |s| else b);
  }

  /** `find_last_not_of(" \t\n")` is `npos` exactly on all-whitespace input,
      and otherwise the index just before the end of the text of `s`. */
  lemma LastNotOfIsEnd(s: seq<char>)
    requires Fits(s)
    ensures var e := FindLastNotOf(s, WHITESPACE);
      (e == NPOS <==> AllSpace(s)) &&
      (e == NPOS ==> SkipSpacesBack(s, |s|) == 0) &&
      (e != NPOS ==> e + 1 == SkipSpacesBack(s, |s|))
  {
    var e := FindLastNotOf(s, WHITESPACE);
    SkipSpacesBackIs(s, |s|, if e == NPOS then 0 else e + 1);
  }

  /** On input with some non-whitespace character, its text starts before it
      ends. */
  lemma TextBounds(s: seq<char>)
    requires !AllSpace(s)
    ensures SkipSpaces(s, 0) < SkipSpacesBack(s, |s|)
  {
    var k :| 0 <= k < |s| && !IsSpace(s[k]);
    assert SkipSpaces(s, 0) <= k;
    assert k < SkipSpacesBack(s, |s|);
  }

  /** The text of `s`: what lies between its leading and its trailing
      whitespace, empty when `s` is all whitespace. */
  function TextOf(s: seq<char>): seq<char>
  {
    if AllSpace(s) then []
    else
      TextBounds(s);
      s[SkipSpaces(s, 0)..SkipSpacesBack(s, |s|)]
  }

  /** `s` without its leading whitespace. */
  function LeftStripped(s: seq<char>): seq<char>
  {
    s[SkipSpaces(s, 0)..]
  }

  /** `s` without its trailing whitespace. */
  function RightStripped(s: seq<char>): seq<char>
  {
    s[..SkipSpacesBack(s, |s|)]
  }

  /** Around the text of `s` there is only whitespace, and the text starts
      and ends with a non-whitespace character; on all-whitespace input the
      text is empty at both ends of `s`. */
  lemma TextShape(s: seq<char>)
    ensures var b, e := SkipSpaces(s, 0), SkipSpacesBack(s, |s|);
      AllSpace(s[..b]) &&
      (AllSpace(s) ==> b == |s| && e == 0) &&
      (!AllSpace(s) ==> b < e && AllSpace(s[e..]) && !IsSpace(s[b]) && !IsSpace(s[e - 1]))
  {
    var b, e := SkipSpaces(s, 0), SkipSpacesBack(s, |s|);
    assert AllSpace(s[..b]) by {
      forall k | 0 <= k < b ensures IsSpace(s[..b][k]) {
        assert s[..b][k] == s[k];
      }
    }
    if AllSpace(s) {
      SkipSpacesIs(s, 0, |s|);
      SkipSpacesBackIs(s, |s|, 0);
    } else {
      TextBounds(s);
      forall k | 0 <= k < |s| - e ensures IsSpace(s[e..][k]) {
        assert s[e..][k] == s[e + k];
      }
    }
  }

  /** The text of `s` is what is left of `s` stripped on the left after
      stripping it on the right. */
  lemma TextIsRightOfLeft(s: seq<char>)
    ensures TextOf(s) == RightStripped(LeftStripped(s))
  {
    var b, e := SkipSpaces(s, 0), SkipSpacesBack(s, |s|);
    var left := LeftStripped(s);
    if AllSpace(s) {
      SkipSpacesIs(s, 0, |s|);
      assert left == [];
    } else {
      TextBounds(s);
      assert left[e - b - 1] == s[e - 1];
      SkipSpacesBackIs(left, |left|, e - b);
      assert left[..e - b] == s[b..e];
    }
  }

  /** The text of `s` is what is left of `s` stripped on the right after
      stripping it on the left. */
  lemma TextIsLeftOfRight(s: seq<char>)
    ensures TextOf(s) == LeftStripped(RightStripped(s))
  {
    var b, e := SkipSpaces(s, 0), SkipSpacesBack(s, |s|);
    var right := RightStripped(s);
    if AllSpace(s) {
      SkipSpacesBackIs(s, |s|, 0);
      assert right == [];
    } else {
      TextBounds(s);
      SkipSpacesIs(right, 0, b);
      assert right[b..] == s[b..e];
    }
  }

  /** Stripping is idempotent: the text of the text, the left-stripped
      left-stripped string and the right-stripped right-stripped string are
      what one application gives. */
  lemma {:induction false} StrippedIdempotent(s: seq<char>)
    ensures TextOf(TextOf(s)) == TextOf(s)
    ensures LeftStripped(LeftStripped(s)) == LeftStripped(s)
    ensures RightStripped(RightStripped(s)) == RightStripped(s)
  {
    var t, left, right := TextOf(s), LeftStripped(s), RightStripped(s);
    TextShape(s);
    if t != [] {
      SkipSpacesIs(t, 0, 0);
      SkipSpacesBackIs(t, |t|, |t|);
      assert t[0..|t|] == t;
    }
    if left != [] {
      SkipSpacesIs(left, 0, 0);
    }
    if right != [] {
      SkipSpacesBackIs(right, |right|, |right|);
    }
  }

  // ---------------------------------------------------------------------
  // trim, trimLeft, trimRight
  // ---------------------------------------------------------------------

  /** `trim`: `s` without its leading and trailing space, tab and newline
      characters. The result is the slice from the first to the last
      non-whitespace character, and empty when there is none. */
  function Trim(s: seq<char>): (r: seq<char>)
    requires Fits(s)
    ensures r == TextOf(s)
  {
    if |s| == 0 then s
    else
      var b := FindFirstNotOf(s, WHITESPACE, 0);
      var e := FindLastNotOf(s, WHITESPACE);
      FirstNotOfIsStart(s);
      LastNotOfIsEnd(s);
      if b == NPOS then []
      else Substr(s, b, Add(Sub(e, b), 1))
  }

  /** `trimLeft`: `s` without its leading whitespace. */
  function TrimLeft(s: seq<char>): (r: seq<char>)
    requires Fits(s)
    ensures r == LeftStripped(s)
  {
    if |s| == 0 then s
    else
      var b := FindFirstNotOf(s, WHITESPACE, 0);
      var e: SizeType := |s| - 1;
      FirstNotOfIsStart(s);
      if b == NPOS then []
      else Substr(s, b, Add(Sub(e, b), 1))
  }

  /** `trimRight`: `s` without its trailing whitespace. The start `b` is the
      constant 0, so the source's `b == npos` test never holds; for
      all-whitespace input `e` is `npos` and the length `e - b + 1` wraps to 0,
      which yields the empty string. */
  function TrimRight(s: seq<char>): (r: seq<char>)
    requires Fits(s)
    ensures r == RightStripped(s)
  {
    if |s| == 0 then s
    else
      var b: SizeType := 0;
      var e := FindLastNotOf(s, WHITESPACE);
      LastNotOfIsEnd(s);
      if b == NPOS then []
      else Substr(s, b, Add(Sub(e, b), 1))
  }

  /** What `trim` returns: a contiguous piece of `s`, with only whitespace
      cut off on either side, that neither starts nor ends with whitespace. */
  lemma TrimShape(s: seq<char>)
    requires Fits(s)
    ensures var r := Trim(s); var b := SkipSpaces(s, 0);
      (r == [] <==> AllSpace(s)) &&
      b + |r| <= |s| && s[b..b + |r|] == r &&
      AllSpace(s[..b]) && AllSpace(s[b + |r|..]) &&
      (r == [] || (!IsSpace(r[0]) && !IsSpace(r[|r| - 1])))
  {
    var r, b, e := Trim(s), SkipSpaces(s, 0), SkipSpacesBack(s, |s|);
    assert r == TextOf(s);
    TextShape(s);
    if AllSpace(s) {
      assert s[b + |r|..] == [];
    } else {
      assert b + |r| == e;
      assert r[0] == s[b] && r[|r| - 1] == s[e - 1];
    }
  }

  /** What `trimLeft` returns: the suffix of `s` left after an all-whitespace
      prefix, which is empty or starts with a non-whitespace character. */
  lemma TrimLeftShape(s: seq<char>)
    requires Fits(s)
    ensures var r := TrimLeft(s);
      s[..|s| - |r|] + r == s && AllSpace(s[..|s| - |r|]) &&
      (r == [] || !IsSpace(r[0]))
  {
    var b := SkipSpaces(s, 0);
    assert s[..b] + s[b..] == s;
  }

  /** What `trimRight` returns: the prefix of `s` before an all-whitespace
      suffix, which is empty or ends with a non-whitespace character. */
  lemma TrimRightShape(s: seq<char>)
    requires Fits(s)
    ensures var r := TrimRight(s);
      r + s[|r|..] == s && AllSpace(s[|r|..]) &&
      (r == [] || !IsSpace(r[|r| - 1]))
  {
    var e := SkipSpacesBack(s, |s|);
    assert s[..e] + s[e..] == s;
  }

  /** On all-whitespace input `trimRight` reaches the empty string only
      through the unsigned wrap-around of `npos - 0 + 1`. */
  lemma TrimRightWrapsToEmpty(s: seq<char>)
    requires Fits(s) && |s| > 0 && AllSpace(s)
    ensures FindLastNotOf(s, WHITESPACE) == NPOS
    ensures Add(Sub(FindLastNotOf(s, WHITESPACE), 0), 1) == 0
    ensures TrimRight(s) == []
  {
    LastNotOfIsEnd(s);
  }

  /** Trimming both sides is trimming the left side and then the right, and
      trimming the right side and then the left. */
  lemma TrimBothSides(s: seq<char>)
    requires Fits(s)
    ensures Trim(s) == TrimRight(TrimLeft(s))
    ensures Trim(s) == TrimLeft(TrimRight(s))
  {
    TextIsRightOfLeft(s);
    TextIsLeftOfRight(s);
  }

  /** Trimming an already trimmed string changes nothing, on either side. */
  lemma TrimIdempotent(s: seq<char>)
    requires Fits(s)
    ensures Trim(Trim(s)) == Trim(s)
    ensures TrimLeft(TrimLeft(s)) == TrimLeft(s)
    ensures TrimRight(TrimRight(s)) == TrimRight(s)
  {
    StrippedIdempotent(s);
  }

  // ---------------------------------------------------------------------
  // strToLower, strToUpper
  // ---------------------------------------------------------------------

  predicate IsUpper(c: char)
  {
    'A' <= c <= 'Z'
  }

  predicate IsLower(c: char)
  {
    'a' <= c <= 'z'
  }

  /** `std::tolower` in the C locale: maps 'A'..'Z' to 'a'..'z' and leaves every
      other character alone. */
  function ToLower(c: char): (r: char)
    ensures !IsUpper(r)
    ensures IsUpper(c) <==> IsLower(r) && r != c
    ensures !IsUpper(c) ==> r == c
    ensures IsUpper(c) ==> r as int - c as int == 'a' as int - 'A' as int
  {
    if IsUpper(c) then (c as int - 'A' as int + 'a' as int) as char else c
  }

  /** `std::toupper` in the C locale: maps 'a'..'z' to 'A'..'Z' and leaves every
      other character alone. */
  function ToUpper(c: char): (r: char)
    ensures !IsLower(r)
    ensures IsLower(c) <==> IsUpper(r) && r != c
    ensures !IsLower(c) ==> r == c
    ensures IsLower(c) ==> c as int - r as int == 'a' as int - 'A' as int
  {
    if IsLower(c) then (c as int - 'a' as int + 'A' as int) as char else c
  }

  /** `strToLower`: `std::transform` of `s` through `tolower`, appended one
      character at a time to an empty result. */
  function StrToLower(s: seq<char>): (r: seq<char>)
    ensures |r| == |s|
    ensures forall i :: 0 <= i < |s| ==> r[i] == ToLower(s[i])
  {
    if s == [] then [] else [ToLower(s[0])] + StrToLower(s[1..])
  }

  /** `strToUpper`: `std::transform` of `s` through `toupper`. */
  function StrToUpper(s: seq<char>): (r: seq<char>)
    ensures |r| == |s|
    ensures forall i :: 0 <= i < |s| ==> r[i] == ToUpper(s[i])
  {
    if s == [] then [] else [ToUpper(s[0])] + StrToUpper(s[1..])
  }

  /** Lower-casing forgets any earlier upper-casing, and the other way round. */
  lemma CaseRoundTrip(s: seq<char>)
    ensures StrToLower(StrToUpper(s)) == StrToLower(s)
    ensures StrToUpper(StrToLower(s)) == StrToUpper(s)
  {
    var lu, l := StrToLower(StrToUpper(s)), StrToLower(s);
    forall i | 0 <= i < |s| ensures lu[i] == l[i] {
      CharCaseRoundTrip(s[i]);
    }
    var ul, u := StrToUpper(StrToLower(s)), StrToUpper(s);
    forall i | 0 <= i < |s| ensures ul[i] == u[i] {
      CharCaseRoundTrip(s[i]);
    }
  }

  lemma CharCaseRoundTrip(c: char)
    ensures ToLower(ToUpper(c)) == ToLower(c)
    ensures ToUpper(ToLower(c)) == ToUpper(c)
  {
  }

  /** Case mapping is idempotent. */
  lemma CaseIdempotent(s: seq<char>)
    ensures StrToLower(StrToLower(s)) == StrToLower(s)
    ensures StrToUpper(StrToUpper(s)) == StrToUpper(s)
  {
  }

  // ---------------------------------------------------------------------
  // strSplit
  // ---------------------------------------------------------------------

  /** `t` holds none of the characters of `delims`. */
  predicate Free(t: seq<char>, delims: set<char>)
  {
    forall i :: 0 <= i < |t| ==> t[i] !in delims
  }

  /** The delimiter characters of `s`, in the order they occur. */
  function Separators(s: seq<char>, delims: set<char>): (seps: seq<char>)
    ensures |seps| <= |s|
    ensures forall i :: 0 <= i < |seps| ==> seps[i] in delims
  {
    if s == [] then []
    else (if s[0] in delims then [s[0]] else []) + Separators(s[1..], delims)
  }

  /** The positions at or after `lo` whose character is a delimiter. */
  function DelimiterPositions(s: seq<char>, delims: set<char>, lo: nat): set<nat>
  {
    set i: nat | lo <= i < |s| && s[i] in delims
  }

  /** `Separators` counts the delimiter occurrences: the suffix from `lo`
      has as many separators as there are positions from `lo` on holding a
      delimiter. */
  lemma {:induction false} SeparatorsCountFrom(s: seq<char>, delims: set<char>, lo: nat)
    requires lo <= |s|
    ensures |Separators(s[lo..], delims)| == |DelimiterPositions(s, delims, lo)|
    decreases |s| - lo
  {
    if lo == |s| {
      assert DelimiterPositions(s, delims, lo) == {};
    } else {
      SeparatorsCountFrom(s, delims, lo + 1);
      assert s[lo..][1..] == s[lo + 1..];
      var here: set<nat> := if s[lo] in delims then {lo} else {};
      assert DelimiterPositions(s, delims, lo) == here + DelimiterPositions(s, delims, lo + 1);
      assert here * DelimiterPositions(s, delims, lo + 1) == {};
    }
  }

  /** The number of separators of `s` is the number of positions of `s`
      holding a delimiter character. */
  lemma SeparatorsCount(s: seq<char>, delims: set<char>)
    ensures |Separators(s, delims)| == |set i: nat | i < |s| && s[i] in delims|
  {
    SeparatorsCountFrom(s, delims, 0);
    assert s[0..] == s;
    assert DelimiterPositions(s, delims, 0) == set i: nat | i < |s| && s[i] in delims;
  }

  /** The pieces of `s` between delimiter characters: a reference definition
      of splitting, one character at a time. Every delimiter ends a piece,
      so `s` with `k` delimiters has `k + 1` pieces. */
  function Split(s: seq<char>, delims: set<char>): (tokens: seq<seq<char>>)
    ensures |tokens| == |Separators(s, delims)| + 1
    ensures forall i :: 0 <= i < |tokens| ==> Free(tokens[i], delims)
  {
    if s == [] then [[]]
    else
      var rest := Split(s[1..], delims);
      if s[0] in delims then [[]] + rest
      else [[s[0]] + rest[0]] + rest[1..]
  }

  /** Tokens glued back together, `seps[i]` between `tokens[i]` and
      `tokens[i + 1]`. */
  function Join(tokens: seq<seq<char>>, seps: seq<char>): (s: seq<char>)
    requires |tokens| == |seps| + 1
    ensures |s| >= |seps|
  {
    if seps == [] then tokens[0]
    else tokens[0] + [seps[0]] + Join(tokens[1..], seps[1..])
  }

  lemma JoinConsFirst(c: char, t: seq<char>, rest: seq<seq<char>>, seps: seq<char>)
    requires |rest| == |seps|
    ensures Join([[c] + t] + rest, seps) == [c] + Join([t] + rest, seps)
  {
    var longer, shorter := [[c] + t] + rest, [t] + rest;
    assert longer[0] == [c] + t && shorter[0] == t;
    if seps != [] {
      assert longer[1..] == rest == shorter[1..];
      var tail := Join(rest, seps[1..]);
      assert Join(longer, seps) == [c] + t + [seps[0]] + tail;
      assert Join(shorter, seps) == t + [seps[0]] + tail;
      assert [c] + t + [seps[0]] + tail == [c] + (t + [seps[0]] + tail);
    }
  }

  /** Joining the tokens of `s` with the delimiters actually found rebuilds
      `s`, character for character. */
  lemma {:induction false} SplitJoin(s: seq<char>, delims: set<char>)
    ensures Join(Split(s, delims), Separators(s, delims)) == s
  {
    if s != [] {
      var rest := Split(s[1..], delims);
      var seps := Separators(s[1..], delims);
      SplitJoin(s[1..], delims);
      if s[0] in delims {
        assert Separators(s, delims) == [s[0]] + seps;
        assert ([[]] + rest)[1..] == rest;
      } else {
        assert Separators(s, delims) == seps;
        JoinConsFirst(s[0], rest[0], rest[1..], seps);
        assert [rest[0]] + rest[1..] == rest;
      }
    }
  }

  /** `tokens` cut `s` at its delimiters: one more token than delimiters,
      none of them holding a delimiter, and joined by those delimiters they
      give back `s`. */
  predicate SplitsAs(s: seq<char>, delims: set<char>, tokens: seq<seq<char>>)
  {
    |tokens| == |Separators(s, delims)| + 1 &&
    (forall i :: 0 <= i < |tokens| ==> Free(tokens[i], delims)) &&
    Join(tokens, Separators(s, delims)) == s
  }

  /** The first character of a join comes from the first token, or from the
      first separator when that token is empty. */
  lemma JoinHead(tokens: seq<seq<char>>, seps: seq<char>)
    requires |tokens| == |seps| + 1
    ensures tokens[0] != [] ==> |Join(tokens, seps)| > 0 && Join(tokens, seps)[0] == tokens[0][0]
    ensures tokens[0] == [] && seps != [] ==> Join(tokens, seps)[0] == seps[0]
    ensures tokens[0] == [] && seps == [] ==> Join(tokens, seps) == []
  {
  }

  /** A cut of a string that starts with a delimiter starts with an empty
      token, and the other tokens cut the rest of the string. */
  lemma PeelDelimiter(s: seq<char>, delims: set<char>, tokens: seq<seq<char>>)
    requires s != [] && s[0] in delims && SplitsAs(s, delims, tokens)
    ensures tokens[0] == [] && SplitsAs(s[1..], delims, tokens[1..])
  {
    var seps := Separators(s, delims);
    assert seps == [s[0]] + Separators(s[1..], delims);
    JoinHead(tokens, seps);
    assert Free(tokens[0], delims);
    assert tokens[0] == [];
    assert Join(tokens, seps) == [s[0]] + Join(tokens[1..], seps[1..]);
  }

  /** A cut of a string that starts with another character has that
      character in front of its first token; without it the tokens cut the
      rest of the string. */
  lemma PeelChar(s: seq<char>, delims: set<char>, tokens: seq<seq<char>>)
    requires s != [] && s[0] !in delims && SplitsAs(s, delims, tokens)
    ensures tokens[0] != []
    ensures tokens == [[s[0]] + tokens[0][1..]] + tokens[1..]
    ensures SplitsAs(s[1..], delims, [tokens[0][1..]] + tokens[1..])
  {
    var seps := Separators(s, delims);
    assert seps == Separators(s[1..], delims);
    JoinHead(tokens, seps);
    assert tokens[0] != [];
    var t0 := tokens[0];
    var shorter := [t0[1..]] + tokens[1..];
    assert t0 == [t0[0]] + t0[1..];
    JoinConsFirst(t0[0], t0[1..], tokens[1..], seps);
    assert tokens == [[t0[0]] + t0[1..]] + tokens[1..];
    forall i | 0 <= i < |shorter| ensures Free(shorter[i], delims) {
      if i == 0 {
        assert Free(t0, delims);
        forall j | 0 <= j < |t0| - 1 ensures t0[1..][j] !in delims {
          assert t0[1..][j] == t0[j + 1];
        }
      } else {
        assert shorter[i] == tokens[i];
      }
    }
  }

  /** The split cuts `s` at its delimiters. */
  lemma SplitSplits(s: seq<char>, delims: set<char>)
    ensures SplitsAs(s, delims, Split(s, delims))
  {
    SplitJoin(s, delims);
  }

  /** The split is the only way to cut `s` at its delimiters: any tokens
      that do so are the split. */
  lemma {:induction false} SplitUnique(s: seq<char>, delims: set<char>, tokens: seq<seq<char>>)
    requires SplitsAs(s, delims, tokens)
    ensures tokens == Split(s, delims)
  {
    if s == [] {
      assert tokens == [[]];
    } else if s[0] in delims {
      PeelDelimiter(s, delims, tokens);
      SplitUnique(s[1..], delims, tokens[1..]);
      assert tokens == [[]] + tokens[1..];
    } else {
      PeelChar(s, delims, tokens);
      var shorter := [tokens[0][1..]] + tokens[1..];
      SplitUnique(s[1..], delims, shorter);
      assert shorter[1..] == tokens[1..];
    }
  }

  /** Without any delimiter character, `s` is its own single token (so the
      empty string gives one empty token). */
  lemma {:induction false} SplitWithoutDelimiter(s: seq<char>, delims: set<char>)
    requires Free(s, delims)
    ensures Split(s, delims) == [s]
  {
    if s != [] {
      assert Free(s[1..], delims) by {
        forall i | 0 <= i < |s| - 1 ensures s[1..][i] !in delims {
          assert s[1..][i] == s[i + 1];
        }
      }
      SplitWithoutDelimiter(s[1..], delims);
      assert [s[0]] + s[1..] == s;
    }
  }

  /** The first delimiter, at index `k`, ends the first token; the rest of the
      split comes from what follows it. */
  lemma {:induction false} SplitAtFirstDelimiter(s: seq<char>, delims: set<char>, k: nat)
    requires k < |s| && s[k] in delims
    requires Free(s[..k], delims)
    ensures Split(s, delims) == [s[..k]] + Split(s[k + 1..], delims)
  {
    if k > 0 {
      assert s[0] == s[..k][0];
      var head := s[1..][..k - 1];
      assert Free(head, delims) by {
        forall i | 0 <= i < k - 1 ensures head[i] !in delims {
          assert head[i] == s[..k][i + 1];
        }
      }
      SplitAtFirstDelimiter(s[1..], delims, k - 1);
      assert s[1..][k..] == s[k + 1..];
      assert [s[0]] + s[1..][..k - 1] == s[..k];
    }
  }

  /** A delimiter at the very end yields a trailing empty token. */
  lemma {:induction false} SplitTrailingDelimiter(s: seq<char>, delims: set<char>)
    requires |s| > 0 && s[|s| - 1] in delims
    ensures var tokens := Split(s, delims); tokens[|tokens| - 1] == []
  {
    if |s| == 1 {
      assert Split(s[1..], delims) == [[]];
    } else {
      SplitTrailingDelimiter(s[1..], delims);
    }
  }

  /** The token a round of `strSplit` pushes: up to the delimiter found, or,
      when the search gives `npos`, the rest of the string, because the
      length `npos - lastPos` is more than what remains. */
  lemma TokenOfRound(str: seq<char>, delims: set<char>, lastPos: SizeType)
    requires Fits(str) && lastPos <= |str|
    ensures var pos := FindFirstOf(str, delims, lastPos);
      Substr(str, lastPos, Sub(pos, lastPos)) ==
        if pos == NPOS then str[lastPos..] else str[lastPos..pos]
  {
  }

  /** What the search of a `strSplit` round tells about the split of the
      rest of the string. */
  lemma SplitOfRest(str: seq<char>, delims: set<char>, lastPos: SizeType)
    requires Fits(str) && lastPos <= |str|
    ensures var pos := FindFirstOf(str, delims, lastPos);
      (pos == NPOS ==> Split(str[lastPos..], delims) == [str[lastPos..]]) &&
      (pos != NPOS ==> Split(str[lastPos..], delims) == [str[lastPos..pos]] + Split(str[pos + 1..], delims))
  {
    var pos := FindFirstOf(str, delims, lastPos);
    var rest := str[lastPos..];
    if pos == NPOS {
      SplitWithoutDelimiter(rest, delims);
    } else {
      assert rest[..pos - lastPos] == str[lastPos..pos];
      SplitAtFirstDelimiter(rest, delims, pos - lastPos);
      assert rest[pos - lastPos + 1..] == str[pos + 1..];
    }
  }

  /** One round of the `strSplit` loop from `lastPos`, after `done` tokens
      that with the split of the rest make up the split of `str`: the token
      it pushes completes the split when no delimiter is left, and otherwise
      the split of what follows the delimiter found makes up the rest. */
  lemma SplitStep(str: seq<char>, delims: set<char>, lastPos: SizeType, done: seq<seq<char>>)
    requires Fits(str) && lastPos <= |str|
    requires done + Split(str[lastPos..], delims) == Split(str, delims)
    ensures var pos := FindFirstOf(str, delims, lastPos);
      var next := done + [Substr(str, lastPos, Sub(pos, lastPos))];
      (pos == NPOS ==> next == Split(str, delims)) &&
      (pos != NPOS ==> pos < |str| && next + Split(str[pos + 1..], delims) == Split(str, delims))
  {
    var pos := FindFirstOf(str, delims, lastPos);
    var token := Substr(str, lastPos, Sub(pos, lastPos));
    if pos == NPOS {
      assert done + [token] == Split(str, delims) by {
        TokenOfRound(str, delims, lastPos);
        SplitOfRest(str, delims, lastPos);
      }
    } else {
      var after := Split(str[pos + 1..], delims);
      assert done + [token] + after == Split(str, delims) by {
        TokenOfRound(str, delims, lastPos);
        SplitOfRest(str, delims, lastPos);
        assert done + [token] + after == done + ([token] + after);
      }
    }
  }

  /** `strSplit`: the do-while loop of the source. Each round looks for the
      next delimiter from `lastPos` on, pushes the text up to it (all the rest
      when the search gives `npos`, since `npos - lastPos` exceeds the
      remaining length) and moves `lastPos` past it; when `pos` is `npos`,
      `pos + 1` wraps to 0, but the loop stops there. The delimiter string is
      taken as the set of its characters. */
  method StrSplit(str: seq<char>, delimiters: set<char>) returns (tokens: seq<seq<char>>)
    requires Fits(str)
    ensures tokens == Split(str, delimiters)
    ensures |tokens| == |Separators(str, delimiters)| + 1
    ensures forall i :: 0 <= i < |tokens| ==> Free(tokens[i], delimiters)
    ensures Join(tokens, Separators(str, delimiters)) == str
  {
    tokens := [];
    var lastPos: SizeType := 0;
    var pos: SizeType := 0;
    while true
      invariant lastPos <= |str|
      invariant tokens + Split(str[lastPos..], delimiters) == Split(str, delimiters)
      decreases |str| - lastPos
    {
      pos := FindFirstOf(str, delimiters, lastPos);
      SplitStep(str, delimiters, lastPos, tokens);
      tokens := tokens + [Substr(str, lastPos, Sub(pos, lastPos))];
      lastPos := Add(pos, 1);
      if pos == NPOS {
        break;
      }
    }
    SplitSplits(str, delimiters);
  }

  // ---------------------------------------------------------------------
  // strStartsWith, strEndsWith
  // ---------------------------------------------------------------------

  /** `std::equal(first.begin(), first.end(), second.begin())`: whether
      `first` matches `second` position by position over its own length. */
  function Equal(first: seq<char>, second: seq<char>): (r: bool)
    requires |first| <= |second|
    ensures r <==> first == second[..|first|]
  {
    if first == [] then true
    else first[0] == second[0] && Equal(first[1..], second[1..])
  }

  /** The range `rbegin() .. rend()` of `s`: its characters back to front. */
  function Reversed(s: seq<char>): seq<char>
  {
    seq(|s|, i requires 0 <= i < |s| => s[|s| - 1 - i])
  }

  /** `strStartsWith`: false when `start` is longer than `s`, otherwise
      whether the leading characters of `s` are `start`. */
  function StrStartsWith(s: seq<char>, start: seq<char>): (r: bool)
    ensures r <==> |start| <= |s| && s[..|start|] == start
  {
    if |s| < |start| then false
    else Equal(start, s)
  }

  /** `strEndsWith`: false when `end` is longer than `s`, otherwise the
      comparison of `end` with `s` through reverse iterators. */
  function StrEndsWith(s: seq<char>, end: seq<char>): (r: bool)
    ensures r <==> |end| <= |s| && s[|s| - |end|..] == end
  {
    if |s| < |end| then false
    else
      ReversedPrefix(s, end);
      Equal(Reversed(end), Reversed(s))
  }

  /** Reading `s` backwards twice gives `s`. */
  lemma ReversedTwice(s: seq<char>)
    ensures Reversed(Reversed(s)) == s
  {
    var r := Reversed(s);
    assert forall i :: 0 <= i < |s| ==> Reversed(r)[i] == r[|s| - 1 - i];
  }

  /** The first `n` characters of `s` read backwards are its last `n`
      characters read backwards. */
  lemma ReversedHead(s: seq<char>, n: nat)
    requires n <= |s|
    ensures Reversed(s)[..n] == Reversed(s[|s| - n..])
  {
    var tail := s[|s| - n..];
    forall i | 0 <= i < n ensures Reversed(s)[..n][i] == Reversed(tail)[i] {
      assert tail[n - 1 - i] == s[|s| - 1 - i];
    }
  }

  /** Reading `end` backwards against `s` backwards compares `end` with the
      tail of `s`. */
  lemma ReversedPrefix(s: seq<char>, end: seq<char>)
    requires |end| <= |s|
    ensures Reversed(s)[..|end|] == Reversed(end) <==> s[|s| - |end|..] == end
  {
    var tail := s[|s| - |end|..];
    ReversedHead(s, |end|);
    ReversedTwice(tail);
    ReversedTwice(end);
  }
}
