/**
 * `getBemRange`: the range of the BEM word under the cursor on one line of a
 * document. The document access is left out: the method gets the line's text,
 * its number and the cursor column, and the `vscode.Range` it builds is the
 * `Range` datatype below (`end` exclusive).
 */
module BemRange {
  import opened Wrappers

  datatype Position = Position(line: nat, character: int)
  datatype Range = Range(start: Position, end: Position)

  /** The characters of `[A-Za-z0-9_-]`, which make up a BEM word. */
  predicate IsBody(c: char) {
    || ('A' <= c <= 'Z') || ('a' <= c <= 'z') || ('0' <= c <= '9')
    || c == '_' || c == '-'
  }

  /** A selector prefix that is taken into the range in front of the word. */
  predicate IsPrefix(c: char) {
    c == '.' || c == '#'
  }

  /** The cursor column pulled back to the last character of a line of length
      `len`; negative exactly when the column is negative or the line is empty. */
  function Clamp(len: nat, character: int): (i: int)
    ensures i < len
    ensures character < len ==> i == character
    ensures character >= len ==> i == len - 1
    ensures i < 0 <==> character < 0 || len == 0
  {
    if character >= len then len - 1 else character
  }

  function Dist(a: int, b: int): nat {
    if a <= b then b - a else a - b
  }

  /** `k` is a body character nearest to column `i`; of two at the same
      distance it is the left one. */
  predicate IsNearestBody(line: string, i: int, k: int) {
    && 0 <= k < |line|
    && IsBody(line[k])
    && forall j :: 0 <= j < |line| && IsBody(line[j]) ==>
         Dist(k, i) < Dist(j, i) || (Dist(k, i) == Dist(j, i) && k <= j)
  }

  /** `[ws, we)` is a run of body characters that cannot be made longer. */
  predicate MaximalRun(line: string, ws: int, we: int) {
    && 0 <= ws < we <= |line|
    && (forall j :: ws <= j < we ==> IsBody(line[j]))
    && (ws == 0 || !IsBody(line[ws - 1]))
    && (we == |line| || !IsBody(line[we]))
  }

  /** `[s, e)` is the maximal word around index `k`, with the one `.` or `#`
      right in front of it when there is one. */
  predicate IsBemRange(line: string, k: int, s: int, e: int) {
    && 0 <= s <= k < e <= |line|
    && if IsBody(line[s]) then
         MaximalRun(line, s, e) && (s == 0 || !IsPrefix(line[s - 1]))
       else
         s < k && IsPrefix(line[s]) && MaximalRun(line, s + 1, e)
  }

  /** `getBemRange`: `None` exactly when the column is negative or the line has
      no body character; otherwise the word range around the body character
      nearest to the clamped column, both ends on the given line. */
  method GetBemRange(line: string, lineNumber: nat, character: int) returns (range: Option<Range>)
    ensures range.None? <==> character < 0 || forall k :: 0 <= k < |line| ==> !IsBody(line[k])
    ensures range.Some? ==> range.value.start.line == lineNumber && range.value.end.line == lineNumber
    ensures range.Some? ==> exists k ::
      && IsNearestBody(line, Clamp(|line|, character), k)
      && IsBemRange(line, k, range.value.start.character, range.value.end.character)
  {
    var i := character;
    if i >= |line| {
      i := |line| - 1;
    }
    if i < 0 {
      return None;
    }
    assert i == Clamp(|line|, character);
    if !IsBody(line[i]) {
      var found := SearchOutward(line, i);
      if found.None? {
        return None;
      }
      i := found.value;
    } else {
      BodyCursorIsNearest(line, i);
    }
    assert IsNearestBody(line, Clamp(|line|, character), i);
    var start := i;
    while start - 1 >= 0 && IsBody(line[start - 1])
      invariant 0 <= start <= i
      invariant forall j :: start <= j <= i ==> IsBody(line[j])
    {
      start := start - 1;
    }
    var end := i;
    while end + 1 < |line| && IsBody(line[end + 1])
      invariant i <= end < |line|
      invariant forall j :: i <= j <= end ==> IsBody(line[j])
    {
      end := end + 1;
    }
    ExpansionIsMaximal(line, i, start, end);
    ghost var word := start;
    if start - 1 >= 0 && (line[start - 1] == '.' || line[start - 1] == '#') {
      start := start - 1;
    }
    PrefixedRunIsBemRange(line, i, word, start, end + 1);
    range := Some(Range(Position(lineNumber, start), Position(lineNumber, end + 1)));
  }

  /** The outward search of `getBemRange` from a cursor that is not on a body
      character: left before right at each distance, until both ends of the
      line are passed. It finds the nearest body character, and nothing
      exactly when the line has none. */
  method SearchOutward(line: string, i: int) returns (found: Option<int>)
    requires 0 <= i < |line| && !IsBody(line[i])
    ensures found.None? <==> forall k :: 0 <= k < |line| ==> !IsBody(line[k])
    ensures found.Some? ==> IsNearestBody(line, i, found.value)
  {
    var l := i - 1;
    var r := i + 1;
    ghost var d := 1;
    while l >= 0 || r < |line|
      invariant 1 <= d && l == i - d && r == i + d
      invariant forall j :: 0 <= j < |line| && Dist(j, i) < d ==> !IsBody(line[j])
      decreases |line| - d
    {
      if l >= 0 && IsBody(line[l]) {
        LeftIsNearest(line, i, d);
        return Some(l);
      }
      if r < |line| && IsBody(line[r]) {
        RightIsNearest(line, i, d);
        return Some(r);
      }
      l := l - 1;
      r := r + 1;
      d := d + 1;
    }
    SearchExhausted(line, i, d);
    return None;
  }

  /** The left candidate at distance `d` is nearest when nothing closer is a
      body character. */
  lemma LeftIsNearest(line: string, cursor: int, d: nat)
    requires 0 <= cursor - d && cursor < |line| && IsBody(line[cursor - d])
    requires forall j :: 0 <= j < |line| && Dist(j, cursor) < d ==> !IsBody(line[j])
    ensures IsNearestBody(line, cursor, cursor - d)
  {
  }

  /** The right candidate at distance `d` is nearest when nothing closer and not
      the left candidate is a body character. */
  lemma RightIsNearest(line: string, cursor: int, d: nat)
    requires 0 <= cursor && cursor + d < |line| && IsBody(line[cursor + d])
    requires cursor - d < 0 || !IsBody(line[cursor - d])
    requires forall j :: 0 <= j < |line| && Dist(j, cursor) < d ==> !IsBody(line[j])
    ensures IsNearestBody(line, cursor, cursor + d)
  {
  }

  /** When the outward search has passed both ends of the line, the line has no
      body character. */
  lemma SearchExhausted(line: string, cursor: int, d: nat)
    requires cursor - d < 0 && |line| <= cursor + d
    requires forall j :: 0 <= j < |line| && Dist(j, cursor) < d ==> !IsBody(line[j])
    ensures forall k :: 0 <= k < |line| ==> !IsBody(line[k])
  {
    assert forall j :: 0 <= j < |line| ==> Dist(j, cursor) < d;
  }

  /** Expanding left and right from `i` while the neighbours are body
      characters ends on a maximal run. */
  lemma ExpansionIsMaximal(line: string, i: int, start: int, end: int)
    requires 0 <= start <= i <= end < |line|
    requires forall j :: start <= j <= i ==> IsBody(line[j])
    requires forall j :: i <= j <= end ==> IsBody(line[j])
    requires !(start - 1 >= 0 && IsBody(line[start - 1]))
    requires !(end + 1 < |line| && IsBody(line[end + 1]))
    ensures MaximalRun(line, start, end + 1)
  {
  }

  /** The maximal run around `k`, with the prefix taken in exactly when the
      character before the run is a `.` or `#`, is the word range. */
  lemma PrefixedRunIsBemRange(line: string, k: int, word: int, s: int, e: int)
    requires MaximalRun(line, word, e) && word <= k < e
    requires s == if word > 0 && IsPrefix(line[word - 1]) then word - 1 else word
    ensures IsBemRange(line, k, s, e)
  {
  }

  /** At most one body character is nearest to a column. */
  lemma NearestBodyUnique(line: string, i: int, k1: int, k2: int)
    requires IsNearestBody(line, i, k1) && IsNearestBody(line, i, k2)
    ensures k1 == k2
  {
  }

  /** A cursor on a body character keeps its place. */
  lemma BodyCursorIsNearest(line: string, i: int)
    requires 0 <= i < |line| && IsBody(line[i])
    ensures IsNearestBody(line, i, i)
    ensures forall k :: IsNearestBody(line, i, k) ==> k == i
  {
  }

  /** The word range around an index is unique, so together with
      `NearestBodyUnique` the result of `GetBemRange` is determined. */
  lemma BemRangeUnique(line: string, k: int, s1: int, e1: int, s2: int, e2: int)
    requires IsBemRange(line, k, s1, e1) && IsBemRange(line, k, s2, e2)
    ensures s1 == s2 && e1 == e2
  {
    var w1 := if IsBody(line[s1]) then s1 else s1 + 1;
    var w2 := if IsBody(line[s2]) then s2 else s2 + 1;
    assert MaximalRun(line, w1, e1) && MaximalRun(line, w2, e2);
    RunEndsUnique(line, k, w1, e1, w2, e2);
  }

  /** Two maximal runs that share an index are the same run. */
  lemma RunEndsUnique(line: string, k: int, w1: int, e1: int, w2: int, e2: int)
    requires MaximalRun(line, w1, e1) && MaximalRun(line, w2, e2)
    requires w1 <= k < e1 && w2 <= k < e2
    ensures w1 == w2 && e1 == e2
  {
  }

  /** Every character of the range is a body character, except its first one,
      which is then a `.` or `#` followed by the word. */
  lemma BemRangeContents(line: string, k: int, s: int, e: int)
    requires IsBemRange(line, k, s, e)
    ensures forall j :: s < j < e ==> IsBody(line[j])
    ensures IsBody(line[s]) || (IsPrefix(line[s]) && s + 1 < e && IsBody(line[s + 1]))
  {
  }
}
