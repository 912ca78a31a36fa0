/**
 * The ECMAScript String and Array built-ins that the extension's code calls,
 * stated as functions over `seq<char>`. A Dafny `char` is a Unicode scalar
 * value, while JavaScript indexes strings by UTF-16 code unit: the two agree
 * on text inside the Basic Multilingual Plane, which is what the model covers.
 * `Join` is not called by the extension; it is here to state the round trip of
 * `split`.
 */
module JsBuiltins {
  import opened Wrappers

  /** `\s` of an ECMAScript regular expression (WhiteSpace and LineTerminator);
      `String.prototype.trim` strips the same set. */
  predicate IsSpace(c: char) {
    var n := c as int;
    || (0x09 <= n <= 0x0D) || n == 0x20 || n == 0xA0 || n == 0x1680
    || (0x2000 <= n <= 0x200A) || n == 0x2028 || n == 0x2029
    || n == 0x202F || n == 0x205F || n == 0x3000 || n == 0xFEFF
  }

  /** `s.search(/\S/)`: the index of the first non-whitespace character, or -1
      (`SearchNonSpaceSpec`). */
  function SearchNonSpace(s: string): (r: int)
    ensures -1 <= r < |s|
  {
    if |s| == 0 then -1
    else if !IsSpace(s[0]) then 0
    else
      var t := SearchNonSpace(s[1..]);
      if t == -1 then -1 else t + 1
  }

  /** `SearchNonSpace` is -1 exactly for an all-whitespace string, and otherwise
      the first index whose character is not whitespace. */
  lemma {:induction false} SearchNonSpaceSpec(s: string)
    ensures SearchNonSpace(s) == -1 <==> forall k :: 0 <= k < |s| ==> IsSpace(s[k])
    ensures SearchNonSpace(s) >= 0 ==>
      !IsSpace(s[SearchNonSpace(s)]) && forall k :: 0 <= k < SearchNonSpace(s) ==> IsSpace(s[k])
  {
    if |s| > 0 && IsSpace(s[0]) {
      SearchNonSpaceSpec(s[1..]);
      assert forall k :: 1 <= k < |s| ==> s[k] == s[1..][k - 1];
    }
  }

  /** Leading whitespace removed (`TrimStartSpec`). */
  function TrimStart(s: string): (r: string)
    ensures |r| <= |s|
  {
    if |s| > 0 && IsSpace(s[0]) then TrimStart(s[1..]) else s
  }

  /** `TrimStart` keeps a suffix, drops only whitespace, and keeps no leading
      whitespace. */
  lemma {:induction false} TrimStartSpec(s: string)
    ensures TrimStart(s) == s[|s| - |TrimStart(s)|..]
    ensures forall k :: 0 <= k < |s| - |TrimStart(s)| ==> IsSpace(s[k])
    ensures TrimStart(s) == [] || !IsSpace(TrimStart(s)[0])
  {
    if |s| > 0 && IsSpace(s[0]) {
      TrimStartSpec(s[1..]);
      assert forall k :: 1 <= k < |s| ==> s[k] == s[1..][k - 1];
      assert s[1..][|s[1..]| - |TrimStart(s)|..] == s[|s| - |TrimStart(s)|..];
    }
  }

  /** Trailing whitespace removed (`TrimEndSpec`). */
  function TrimEnd(s: string): (r: string)
    ensures |r| <= |s|
  {
    if |s| > 0 && IsSpace(s[|s| - 1]) then TrimEnd(s[..|s| - 1]) else s
  }

  /** `TrimEnd` keeps a prefix, drops only whitespace, and keeps no trailing
      whitespace. */
  lemma {:induction false} TrimEndSpec(s: string)
    ensures TrimEnd(s) == s[..|TrimEnd(s)|]
    ensures forall k :: |TrimEnd(s)| <= k < |s| ==> IsSpace(s[k])
    ensures TrimEnd(s) == [] || !IsSpace(TrimEnd(s)[|TrimEnd(s)| - 1])
  {
    if |s| > 0 && IsSpace(s[|s| - 1]) {
      var p := s[..|s| - 1];
      TrimEndSpec(p);
      assert p[..|TrimEnd(s)|] == s[..|TrimEnd(s)|];
      assert forall k :: 0 <= k < |p| ==> p[k] == s[k];
    }
  }

  /** `s.trim()`: whitespace removed at both ends. */
  function Trim(s: string): string {
    TrimEnd(TrimStart(s))
  }

  /** `TrimStart` drops exactly the characters before the first non-whitespace one. */
  lemma TrimStartSkipsLeading(s: string)
    ensures SearchNonSpace(s) == -1 ==> TrimStart(s) == []
    ensures SearchNonSpace(s) >= 0 ==> |s| - |TrimStart(s)| == SearchNonSpace(s)
  {
    SearchNonSpaceSpec(s);
    TrimStartSpec(s);
    var t := TrimStart(s);
    if t != [] {
      assert s[|s| - |t|] == t[0];
    }
  }

  /** The trimmed text is empty exactly for an all-whitespace string. */
  lemma TrimEmptyIffBlank(s: string)
    ensures Trim(s) == [] <==> SearchNonSpace(s) == -1
  {
    TrimStartSkipsLeading(s);
    TrimStartSpec(s);
    TrimEndSpec(TrimStart(s));
  }

  /** A non-empty trimmed text is the stretch of `s` that starts at its first
      non-whitespace character and ends at its last one (the last character of
      `TrimEnd` is not whitespace). */
  lemma TrimIsStretch(s: string, d: int, r: string)
    requires r == Trim(s) && r != [] && d == SearchNonSpace(s)
    ensures 0 <= d && d + |r| <= |s| && r == s[d..d + |r|]
    ensures forall k :: d + |r| <= k < |s| ==> IsSpace(s[k])
  {
    TrimEmptyIffBlank(s);
    TrimStartSkipsLeading(s);
    var t := TrimStart(s);
    TrimStartSpec(s);
    TrimEndSpec(t);
    Window(s, t, r, d);
  }

  /** A prefix `r` of the suffix `t` of `s` that starts at `d` is the stretch of
      `s` from `d`, and what `t` has after `r` is what `s` has after the stretch. */
  lemma Window(s: string, t: string, r: string, d: nat)
    requires |t| + d == |s| && t == s[|s| - |t|..]
    requires |r| <= |t| && r == t[..|r|]
    requires forall k :: |r| <= k < |t| ==> IsSpace(t[k])
    ensures r == s[d..d + |r|]
    ensures forall k :: d + |r| <= k < |s| ==> IsSpace(s[k])
  {
    forall k | d + |r| <= k < |s| ensures IsSpace(s[k]) {
      assert s[k] == t[k - d];
    }
  }

  /** `s.split(/[ {]/)[0]` (`HeadBeforeSpaceOrBraceSpec`). */
  function HeadBeforeSpaceOrBrace(s: string): (r: string)
    ensures |r| <= |s|
  {
    if |s| == 0 || s[0] == ' ' || s[0] == '{' then []
    else [s[0]] + HeadBeforeSpaceOrBrace(s[1..])
  }

  /** The head is the longest prefix of `s` holding neither a space nor an
      opening brace. */
  lemma {:induction false} HeadBeforeSpaceOrBraceSpec(s: string)
    ensures HeadBeforeSpaceOrBrace(s) == s[..|HeadBeforeSpaceOrBrace(s)|]
    ensures forall k :: 0 <= k < |HeadBeforeSpaceOrBrace(s)| ==>
      HeadBeforeSpaceOrBrace(s)[k] != ' ' && HeadBeforeSpaceOrBrace(s)[k] != '{'
    ensures var n := |HeadBeforeSpaceOrBrace(s)|; n == |s| || s[n] == ' ' || s[n] == '{'
  {
    if !(|s| == 0 || s[0] == ' ' || s[0] == '{') {
      HeadBeforeSpaceOrBraceSpec(s[1..]);
      var h := HeadBeforeSpaceOrBrace(s[1..]);
      assert s[..|h| + 1] == [s[0]] + s[1..][..|h|];
    }
  }

  /** `s.split(sep)` for a one-character separator. */
  function Split(s: string, sep: char): (parts: seq<string>)
    ensures |parts| >= 1
    ensures forall k :: 0 <= k < |parts| ==> sep !in parts[k]
  {
    if |s| == 0 then [""]
    else
      var rest := Split(s[1..], sep);
      if s[0] == sep then [""] + rest
      else [[s[0]] + rest[0]] + rest[1..]
  }

  /** `parts.join(sep)`: the inverse of `Split`. */
  function Join(parts: seq<string>, sep: char): string {
    if |parts| == 0 then ""
    else if |parts| == 1 then parts[0]
    else parts[0] + [sep] + Join(parts[1..], sep)
  }

  /** Joining the pieces of a split gives back the original text. */
  lemma {:induction false} JoinSplit(s: string, sep: char)
    ensures Join(Split(s, sep), sep) == s
  {
    if |s| > 0 {
      JoinSplit(s[1..], sep);
      var rest := Split(s[1..], sep);
      if s[0] == sep {
        assert ([""] + rest)[1..] == rest;
        assert s == [sep] + s[1..];
      } else if |rest| == 1 {
        assert s == [s[0]] + s[1..];
      } else {
        var parts := [[s[0]] + rest[0]] + rest[1..];
        assert parts[1..] == rest[1..];
        assert Join(rest, sep) == rest[0] + [sep] + Join(rest[1..], sep);
        assert s == [s[0]] + s[1..];
      }
    }
  }

  /** Splitting text that starts with a separator-free piece `p`. */
  lemma {:induction false} SplitAfterPiece(p: string, t: string, sep: char)
    requires sep !in p
    ensures Split(p + t, sep) == [p + Split(t, sep)[0]] + Split(t, sep)[1..]
  {
    if |p| > 0 {
      SplitAfterPiece(p[1..], t, sep);
      assert (p + t)[1..] == p[1..] + t;
      assert [p[0]] + (p[1..] + Split(t, sep)[0]) == p + Split(t, sep)[0];
    } else {
      var st := Split(t, sep);
      assert p == [];
      assert p + t == t && p + st[0] == st[0];
      assert [st[0]] + st[1..] == st;
    }
  }

  /** Splitting the join of separator-free pieces gives back the pieces. */
  lemma {:induction false} SplitJoin(parts: seq<string>, sep: char)
    requires |parts| >= 1
    requires forall k :: 0 <= k < |parts| ==> sep !in parts[k]
    ensures Split(Join(parts, sep), sep) == parts
  {
    if |parts| == 1 {
      SplitAfterPiece(parts[0], "", sep);
      var empty := Split("", sep);
      assert empty == [""];
      assert empty[0] == "" && empty[1..] == [];
      assert parts[0] + "" == parts[0] && parts[0] + empty[0] == parts[0];
      assert Join(parts, sep) == parts[0];
      assert parts == [parts[0]];
    } else {
      var tail := Join(parts[1..], sep);
      SplitJoin(parts[1..], sep);
      SplitAfterPiece(parts[0], [sep] + tail, sep);
      var after := [sep] + tail;
      assert after[1..] == tail;
      assert Split(after, sep) == [""] + Split(tail, sep);
      assert Split(after, sep)[0] == "" && Split(after, sep)[1..] == parts[1..];
      assert parts[0] + "" == parts[0];
      assert Join(parts, sep) == parts[0] + after;
      assert parts == [parts[0]] + parts[1..];
    }
  }

  /** `s.startsWith(prefix)` */
  predicate StartsWith(s: string, prefix: string) {
    |prefix| <= |s| && s[..|prefix|] == prefix
  }

  /** `s.endsWith(suffix)` */
  predicate EndsWith(s: string, suffix: string) {
    |suffix| <= |s| && s[|s| - |suffix|..] == suffix
  }

  /** `s.includes(needle)` */
  predicate Includes(s: string, needle: string) {
    StartsWith(s, needle) || (|s| > 0 && Includes(s[1..], needle))
  }

  /** `needle` occurs in `s` at index `i`. */
  ghost predicate OccursAt(s: string, needle: string, i: nat) {
    i + |needle| <= |s| && s[i..i + |needle|] == needle
  }

  /** An occurrence at some index makes `Includes` hold. */
  lemma {:induction false} OccursAtIncludes(s: string, needle: string, i: nat)
    requires OccursAt(s, needle, i)
    ensures Includes(s, needle)
  {
    if i > 0 {
      assert s[1..][i - 1..i - 1 + |needle|] == s[i..i + |needle|];
      OccursAtIncludes(s[1..], needle, i - 1);
    }
  }

  /** `Includes` holds exactly when the needle occurs at some index. */
  lemma {:induction false} IncludesIff(s: string, needle: string)
    ensures Includes(s, needle) <==> exists i: nat :: OccursAt(s, needle, i)
  {
    if StartsWith(s, needle) {
      assert OccursAt(s, needle, 0);
    } else if |s| > 0 && Includes(s[1..], needle) {
      IncludesIff(s[1..], needle);
      var i: nat :| OccursAt(s[1..], needle, i);
      assert s[i + 1..i + 1 + |needle|] == s[1..][i..i + |needle|];
      assert OccursAt(s, needle, i + 1);
    }
    forall i: nat | OccursAt(s, needle, i)
      ensures Includes(s, needle)
    {
      OccursAtIncludes(s, needle, i);
    }
  }

  /** The one-character `toLowerCase` of ASCII letters; other characters are kept. */
  function LowerChar(c: char): char {
    if 'A' <= c <= 'Z' then (c as int + 32) as char else c
  }

  predicate IsAsciiUpper(c: char) {
    'A' <= c <= 'Z'
  }

  /** `s.toLowerCase()`, restricted to ASCII letters. */
  function ToLowerCase(s: string): (r: string)
    ensures |r| == |s|
    ensures forall k :: 0 <= k < |s| ==> r[k] == LowerChar(s[k])
  {
    if |s| == 0 then "" else [LowerChar(s[0])] + ToLowerCase(s[1..])
  }

  /** `xs.find(p)` reports the element at the first index satisfying `p`;
      this gives that index. */
  function FindIndex<T>(xs: seq<T>, p: T -> bool): (r: Option<nat>)
    ensures r.Some? ==> r.value < |xs| && p(xs[r.value])
    ensures r.Some? ==> forall k :: 0 <= k < r.value ==> !p(xs[k])
    ensures r.None? <==> forall k :: 0 <= k < |xs| ==> !p(xs[k])
  {
    if |xs| == 0 then None
    else if p(xs[0]) then Some(0)
    else
      match FindIndex(xs[1..], p)
      case None => None
      case Some(k) => Some(k + 1)
  }
}
