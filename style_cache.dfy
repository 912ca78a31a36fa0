/**
 * `StyleCacheManager`: a table from a lower-cased file path to the symbols
 * parsed from that file, with two first-hit lookups.
 *
 * The source keeps a JavaScript `Map`, which iterates its keys in insertion
 * order, keeps a key's place when its value is replaced, and forgets it on
 * `delete`. The class keeps that order in `order` beside the `cache` map.
 * The file read is the `content` parameter of `UpdateCache`: `None` for a read
 * that failed.
 */
module StyleCache {
  import opened Wrappers
  import opened JsBuiltins
  import opened StylusParser

  /** A lookup result: the cache key of the file and the symbol found in it. */
  datatype Hit = Hit(path: string, symbol: StyleSymbol)

  /** Whether two paths differ only in the case of ASCII letters. */
  predicate SameIgnoringCase(a: string, b: string) {
    |a| == |b| && forall k :: 0 <= k < |a| ==> LowerChar(a[k]) == LowerChar(b[k])
  }

  /** `normalizePath`: the cache key of a path. It has no upper-case ASCII letter
      and differs from the path only in letter case. */
  function NormalizePath(path: string): (key: string)
    ensures forall k :: 0 <= k < |key| ==> !IsAsciiUpper(key[k])
    ensures SameIgnoringCase(key, path)
  {
    ToLowerCase(path)
  }

  /** Two paths get the same key exactly when they differ only in letter case. */
  lemma SameKeyIffSameIgnoringCase(a: string, b: string)
    ensures NormalizePath(a) == NormalizePath(b) <==> SameIgnoringCase(a, b)
  {
  }

  /** Normalizing a key again leaves it as it is. */
  lemma NormalizePathIdempotent(path: string)
    ensures NormalizePath(NormalizePath(path)) == NormalizePath(path)
  {
  }

  /** The test of `findInCache`: the selector is `.target` or `target` itself. */
  predicate MatchesInCache(s: StyleSymbol, target: string) {
    s.fullSelector == "." + target || s.fullSelector == target
  }

  /** The selector `findInFolder` looks for: the target as it is when it already
      starts with `.` or `#`, and the target as a class otherwise. */
  function TargetSelector(target: string): (sel: string)
    ensures sel == target <==> StartsWith(target, ".") || StartsWith(target, "#")
    ensures sel != target ==> sel == "." + target
    ensures StartsWith(sel, ".") || StartsWith(sel, "#")
  {
    if StartsWith(target, ".") || StartsWith(target, "#") then target else "." + target
  }

  /** The test of `findInFolder`: exact match, descendant suffix, or plain suffix. */
  predicate MatchesInFolder(s: StyleSymbol, sel: string) {
    || s.fullSelector == sel
    || EndsWith(s.fullSelector, " " + sel)
    || EndsWith(s.fullSelector, sel)
  }

  /** The three tests of `findInFolder` amount to "ends with the selector". */
  lemma MatchesInFolderIsSuffix(s: StyleSymbol, sel: string)
    ensures MatchesInFolder(s, sel) <==> EndsWith(s.fullSelector, sel)
  {
  }

  predicate Distinct(keys: seq<string>) {
    forall i, j :: 0 <= i < j < |keys| ==> keys[i] != keys[j]
  }

  /** No symbol of the list passes the test. */
  predicate NoneMatch(symbols: seq<StyleSymbol>, p: StyleSymbol -> bool) {
    forall s :: s in symbols ==> !p(s)
  }

  class StyleCacheManager {
    /** The keys in insertion order. */
    var order: seq<string>
    var cache: map<string, seq<StyleSymbol>>

    ghost predicate Valid()
      reads this
    {
      && Distinct(order)
      && (forall key :: key in cache <==> key in order)
    }

    constructor ()
      ensures Valid()
      ensures cache == map[] && order == []
    {
      order := [];
      cache := map[];
    }

    /** `updateCache`: with `force` false an existing entry is kept as it is;
        otherwise a successful read replaces or adds the entry with the parsed
        symbols, and a failed read changes nothing. */
    method UpdateCache(path: string, force: bool, content: Option<string>)
      requires Valid()
      modifies this
      ensures Valid()
      ensures var key := NormalizePath(path);
        if (!force && key in old(cache)) || content.None? then
          cache == old(cache) && order == old(order)
        else
          && cache == old(cache)[key := Parse(content.value)]
          && order == if key in old(cache) then old(order) else old(order) + [key]
    {
      var key := NormalizePath(path);
      if !force && key in cache {
        return;
      }
      match content
      case None =>
      case Some(text) =>
        var symbols := ParseStylus(text);
        if key !in cache {
          assert key !in order;
          order := order + [key];
        }
        cache := cache[key := symbols];
    }

    /** `invalidateCache`: the entry of the path is gone, every other entry and
        the order of the remaining keys are kept; nothing changes when the path
        has no entry. */
    method InvalidateCache(path: string)
      requires Valid()
      modifies this
      ensures Valid()
      ensures var key := NormalizePath(path);
        && cache == old(cache) - {key}
        && order == Without(old(order), key)
        && (key !in old(cache) ==> cache == old(cache) && order == old(order))
    {
      var key := NormalizePath(path);
      WithoutKeepsDistinct(order, key);
      order := Without(order, key);
      cache := cache - {key};
    }

    /** `findInCache`: the first symbol, in the first key that has one, whose
        selector is `.target` or `target`; `None` exactly when no cached
        symbol matches. */
    method FindInCache(target: string) returns (r: Option<Hit>)
      requires Valid()
      ensures r.None? <==> forall key :: key in cache ==> NoneMatch(cache[key], s => MatchesInCache(s, target))
      ensures r.Some? ==>
        && r.value.path in cache
        && r.value.symbol in cache[r.value.path]
        && MatchesInCache(r.value.symbol, target)
      ensures r.Some? ==> FirstHit(order, cache, _ => true, s => MatchesInCache(s, target), r.value)
    {
      var p := s => MatchesInCache(s, target);
      for i := 0 to |order|
        invariant forall j :: 0 <= j < i ==> NoneMatch(cache[order[j]], p)
      {
        var cachedPath := order[i];
        var symbols := cache[cachedPath];
        var found := FindIndex(symbols, p);
        if found.Some? {
          r := Some(Hit(cachedPath, symbols[found.value]));
          assert FirstHit(order, cache, _ => true, p, r.value) by {
            assert Earliest(order, cache, _ => true, p, i);
          }
          return;
        }
      }
      r := None;
    }

    /** `findInFolder`: among the keys that contain the normalized folder path,
        the first symbol, in the first such key that has one, whose selector
        equals or ends with the target selector; `None` exactly when there is
        no such symbol. */
    method FindInFolder(target: string, folderPath: string) returns (r: Option<Hit>)
      requires Valid()
      ensures var dir, sel := NormalizePath(folderPath), TargetSelector(target);
        r.None? <==> forall key :: key in cache && Includes(key, dir) ==> NoneMatch(cache[key], s => MatchesInFolder(s, sel))
      ensures var dir, sel := NormalizePath(folderPath), TargetSelector(target);
        r.Some? ==>
          && r.value.path in cache
          && Includes(r.value.path, dir)
          && r.value.symbol in cache[r.value.path]
          && EndsWith(r.value.symbol.fullSelector, sel)
      ensures var dir, sel := NormalizePath(folderPath), TargetSelector(target);
        r.Some? ==> FirstHit(order, cache, key => Includes(key, dir), s => MatchesInFolder(s, sel), r.value)
    {
      var targetPath := NormalizePath(folderPath);
      var targetSelector := TargetSelector(target);
      var keyOk := key => Includes(key, targetPath);
      var p := s => MatchesInFolder(s, targetSelector);
      for i := 0 to |order|
        invariant forall j :: 0 <= j < i && keyOk(order[j]) ==> NoneMatch(cache[order[j]], p)
      {
        var cachedPath := order[i];
        if Includes(cachedPath, targetPath) {
          var symbols := cache[cachedPath];
          var found := FindIndex(symbols, p);
          if found.Some? {
            r := Some(Hit(cachedPath, symbols[found.value]));
            MatchesInFolderIsSuffix(r.value.symbol, targetSelector);
            assert FirstHit(order, cache, keyOk, p, r.value) by {
              assert Earliest(order, cache, keyOk, p, i);
            }
            return;
          }
        }
      }
      r := None;
    }
  }

  /** `order` without the key `key`, the others in the same order. */
  function Without(order: seq<string>, key: string): (r: seq<string>)
    ensures forall x :: x in r <==> x in order && x != key
    ensures key !in order ==> r == order
  {
    if |order| == 0 then []
    else if order[0] == key then Without(order[1..], key)
    else [order[0]] + Without(order[1..], key)
  }

  /** In a duplicate-free order, deleting the key at index `p` leaves the keys
      before and after it, in the same order. */
  lemma {:induction false} WithoutRemovesAt(order: seq<string>, key: string, p: nat)
    requires Distinct(order) && p < |order| && order[p] == key
    ensures Without(order, key) == order[..p] + order[p + 1..]
  {
    assert order[0] == order[..p + 1][0];
    if p == 0 {
      assert key !in order[1..];
    } else {
      assert order[0] != key;
      assert Distinct(order[1..]) by {
        forall i, j | 0 <= i < j < |order[1..]| ensures order[1..][i] != order[1..][j] {
          assert order[1..][i] == order[i + 1] && order[1..][j] == order[j + 1];
        }
      }
      WithoutRemovesAt(order[1..], key, p - 1);
      assert order[..p] == [order[0]] + order[1..][..p - 1];
      assert order[p + 1..] == order[1..][p..];
    }
  }

  lemma {:induction false} WithoutKeepsDistinct(order: seq<string>, key: string)
    requires Distinct(order)
    ensures Distinct(Without(order, key))
  {
    if |order| > 0 {
      var rest := Without(order[1..], key);
      WithoutKeepsDistinct(order[1..], key);
      assert order[0] !in order[1..];
      assert order[0] !in rest;
      if order[0] != key {
        var r := [order[0]] + rest;
        forall i, j | 0 <= i < j < |r| ensures r[i] != r[j] {
          assert r[j] == rest[j - 1];
          if i > 0 {
            assert r[i] == rest[i - 1];
          }
        }
      }
    }
  }

  /** Index `i` holds the first key that passes `keyOk` and has a symbol passing `p`. */
  ghost predicate Earliest(order: seq<string>, cache: map<string, seq<StyleSymbol>>,
                           keyOk: string -> bool, p: StyleSymbol -> bool, i: nat)
  {
    && i < |order|
    && order[i] in cache
    && keyOk(order[i])
    && !NoneMatch(cache[order[i]], p)
    && forall j :: 0 <= j < i && order[j] in cache && keyOk(order[j]) ==> NoneMatch(cache[order[j]], p)
  }

  /** `h` is what a first-hit scan over the keys in `order` reports: the first
      symbol passing `p` in the earliest key that passes `keyOk` and has one. */
  ghost predicate FirstHit(order: seq<string>, cache: map<string, seq<StyleSymbol>>,
                           keyOk: string -> bool, p: StyleSymbol -> bool, h: Hit)
  {
    exists i: nat :: Earliest(order, cache, keyOk, p, i) && order[i] == h.path &&
      var found := FindIndex(cache[h.path], p);
      found.Some? && cache[h.path][found.value] == h.symbol
  }
}
