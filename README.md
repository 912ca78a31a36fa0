# BEM-Navigator core in Dafny

BEM-Navigator is a VS Code extension that jumps from a BEM class name in a
template to its rule in a Stylus stylesheet. This project models its three
core pieces and proves properties of them:

- `parseStylus` (`stylus_parser.dfy`): one pass over the lines of a
  stylesheet. It keeps a stack of open indentation levels and emits one symbol
  (selector, line, column) per selector line. An `&` token is joined onto the
  selector of the nearest shallower open level.
- `StyleCacheManager` (`style_cache.dfy`): a table from a lower-cased file path
  to the symbols parsed from that file. It has update and invalidate
  operations and two first-hit lookups: over every file (`findInCache`), and
  over the files whose path contains a folder path (`findInFolder`).
- `getBemRange` (`bem_range.dfy`): the range of the BEM word under the cursor
  on one line. It clamps the cursor, searches outward for the nearest word
  character (left first), grows to the whole word, and takes in one `.` or
  `#` in front of it.

`js_builtins.dfy` states the ECMAScript built-ins that this code calls:
`search(/\S/)`, `trim`, `split`, `includes`, `startsWith`, `endsWith`,
`toLowerCase` and `Array.prototype.find`. It also defines `Join`, which the
code does not call, only to state the round trip of `split`. `wrappers.dfy`
holds `Option`.

How the model is built:

- `ParseStylus` is the loop of the source over a local `seq` stack. Its
  postcondition ties it to the function `Parse`, a fold of `Step` over the
  lines. `ParseCharacterization` describes `Parse` without the stack: which
  lines give a symbol, at which column, in which order, and which earlier
  symbol an `&` token is joined onto (the last earlier symbol at a smaller
  column).
- `StyleCacheManager` is a class. Its `cache` map is the source's `Map`, and
  its `order` field holds the map's insertion order, which decides which hit
  the lookups report first. Replacing a value keeps the key's place; deleting
  a key removes it. The file read of `updateCache` is the `content` parameter,
  `None` standing for a read that failed.
- `GetBemRange` has the source's loops. Its contract uses declarative
  predicates: `IsNearestBody` (nearest word character, left one on a tie) and
  `IsBemRange` (maximal word plus optional prefix). `NearestBodyUnique` and
  `BemRangeUnique` show that these two predicates fix the result. The outward
  search of lines 9-18 is its own method, `SearchOutward`, so that each proof
  stays small.

Behaviour a Stylus user might expect that the code does not have (the model
follows the code):

- A nested line without `&` keeps its own token: no `parent child`
  descendant join (`NestedClassIsNotJoined`).
- There is no rule that skips indented lines whose token does not start with
  `.`, `&` or `#`.
- The `:` test looks at the token, not at the whole line.
- `findInFolder` does not resolve project roots and does not rank by path
  distance. It returns the first hit among the keys that contain the
  lower-cased folder path as a substring. Its selector test accepts any
  selector that ends with the target selector, not only an exact match or a
  descendant suffix (`MatchesInFolderIsSuffix`).
- A failed file read leaves the table as it was.

## Model

| member | source | states |
|---|---|---|
| StylusParser.ParseStylus | src/utils/parseStylus.ts:4-38 | the loop with its stack computes exactly `Parse(content)`; it has no precondition, so it is defined on every string |
| StylusParser.ParseCharacterization | src/utils/parseStylus.ts:7-34 | at most one symbol per line; symbols in strictly increasing line order; a symbol for exactly the lines that are not blank and whose token is not a declaration; each at its line's first non-whitespace column; each selector is the raw token, or, for an `&` token with a shallower earlier symbol, the nearest such symbol's selector followed by the token without `&` |
| StylusParser.SkippedLineChangesNothing | src/utils/parseStylus.ts:10-15 | a blank line, or a line whose token holds `:` and does not start with `&`, adds no symbol and leaves the stack as it was |
| StylusParser.StackIndentsIncrease | src/utils/parseStylus.ts:18-29 | after any number of lines the stack's indents strictly increase from bottom to top |
| StylusParser.PopTo | src/utils/parseStylus.ts:18-20 | popping keeps a prefix of the stack whose top is shallower than the line, and every frame removed was at least as deep |
| StylusParser.PopToTwice | src/utils/parseStylus.ts:18-20 | popping to a column and then to a smaller one is the same as popping straight to the smaller one |
| StylusParser.NearestShallowerIsLast | src/utils/parseStylus.ts:18-24 | the symbol an `&` token is joined onto is the last earlier symbol at a smaller column, and there is none exactly when every earlier symbol is at that column or deeper |
| StylusParser.AmpersandExtendsParent | src/utils/parseStylus.ts:23-26 | an `&` symbol with a shallower earlier symbol comes after it, is deeper, and its selector starts with that symbol's selector |
| StylusParserExamples.ModifierIsConcatenated | src/utils/parseStylus.ts:23-26 | `".a\n &-b"` parses to `.a` at (0,0) and `.a-b` at (1,1) |
| StylusParserExamples.NestedClassIsNotJoined | src/utils/parseStylus.ts:22-34 | `".a\n .b"` parses to `.a` at (0,0) and `.b` at (1,1), without a descendant join |
| JsBuiltins.SearchNonSpaceSpec | src/utils/parseStylus.ts:10-11 | the line's indent is -1 exactly for an all-whitespace line, and otherwise the first index whose character is not whitespace |
| JsBuiltins.TrimEmptyIffBlank | src/utils/parseStylus.ts:13 | the trimmed line is empty exactly when the line is all whitespace |
| JsBuiltins.TrimIsStretch | src/utils/parseStylus.ts:13 | a non-empty trimmed line is the stretch of the line from its first non-whitespace character, and only whitespace follows it |
| JsBuiltins.TrimStartSpec | src/utils/parseStylus.ts:13 | removing leading whitespace keeps a suffix, drops only whitespace and leaves no leading whitespace |
| JsBuiltins.TrimEndSpec | src/utils/parseStylus.ts:13 | removing trailing whitespace keeps a prefix, drops only whitespace and leaves no trailing whitespace |
| JsBuiltins.HeadBeforeSpaceOrBraceSpec | src/utils/parseStylus.ts:13 | the token is the longest prefix of the trimmed line holding neither a space nor `{` |
| JsBuiltins.SearchNonSpace | src/utils/parseStylus.ts:10 | the indent lies between -1 and the last index of the line |
| JsBuiltins.JoinSplit | src/utils/parseStylus.ts:7 | joining the lines of a split gives back the content, so no character is lost |
| JsBuiltins.SplitJoin | src/utils/parseStylus.ts:7 | splitting the join of newline-free lines gives back those lines |
| JsBuiltins.Split | src/utils/parseStylus.ts:7 | a split has at least one piece and no piece holds the separator |
| JsBuiltins.IncludesIff | src/utils/styleCacheManager.ts:78 | `includes` holds exactly when the needle occurs at some index |
| JsBuiltins.FindIndex | src/utils/styleCacheManager.ts:54-56 | `find` reports the first element that passes the test, and nothing exactly when none passes |
| JsBuiltins.ToLowerCase | src/utils/styleCacheManager.ts:11 | lower-casing keeps the length and maps every character through the ASCII lower-case map |
| StyleCache.NormalizePath | src/utils/styleCacheManager.ts:10-12 | a key has no upper-case ASCII letter and differs from the path only in letter case |
| StyleCache.SameKeyIffSameIgnoringCase | src/utils/styleCacheManager.ts:10-12 | two paths share a cache key exactly when they differ only in letter case |
| StyleCache.NormalizePathIdempotent | src/utils/styleCacheManager.ts:10-12 | normalizing a key again leaves it as it is |
| StyleCache.StyleCacheManager.constructor | src/utils/styleCacheManager.ts:8 | the cache starts empty |
| StyleCache.StyleCacheManager.UpdateCache | src/utils/styleCacheManager.ts:17-35 | without `force`, an existing key leaves the cache and its order unchanged; a failed read changes nothing; otherwise the key is set to the parsed symbols, every other key keeps its value, and a new key goes last in the order |
| StyleCache.StyleCacheManager.InvalidateCache | src/utils/styleCacheManager.ts:40-44 | the key is removed, every other key keeps its value and its place in the order, and an absent key changes nothing, so a second call changes nothing |
| StyleCache.Without | src/utils/styleCacheManager.ts:42 | deleting a key from the order keeps exactly the other keys, and changes nothing when the key is absent |
| StyleCache.WithoutRemovesAt | src/utils/styleCacheManager.ts:42 | in a duplicate-free order, deleting the key at index `p` gives the keys before it followed by the keys after it, so every other key keeps its relative place |
| StyleCache.WithoutKeepsDistinct | src/utils/styleCacheManager.ts:42 | deleting a key keeps the keys of the order distinct |
| StyleCache.StyleCacheManager.FindInCache | src/utils/styleCacheManager.ts:49-65 | `None` exactly when no cached symbol's selector is `.target` or `target`; otherwise a cached matching symbol, the first one in the earliest key that has one |
| StyleCache.TargetSelector | src/utils/styleCacheManager.ts:73-74 | the target is kept when it starts with `.` or `#`, and otherwise gets a `.` in front |
| StyleCache.MatchesInFolderIsSuffix | src/utils/styleCacheManager.ts:79-92 | the three tests (exact, descendant suffix, plain suffix) hold together exactly when the selector ends with the target selector |
| StyleCache.StyleCacheManager.FindInFolder | src/utils/styleCacheManager.ts:71-97 | `None` exactly when no symbol of a key containing the lower-cased folder path ends with the target selector; otherwise such a symbol in such a key, the first one in the earliest such key |
| BemRange.Clamp | src/utils/getBemRange.ts:6-8 | a cursor before the end keeps its column, a cursor at or past the end moves to the last character; the index is negative exactly when the cursor is negative or the line is empty |
| BemRange.GetBemRange | src/utils/getBemRange.ts:3-28 | `None` exactly when the cursor is negative or the line has no word character (so always on an empty line); otherwise both positions are on the given line and `[start, end)` is the maximal word around the word character nearest to the clamped cursor, with the `.` or `#` in front of it when there is one |
| BemRange.SearchOutward | src/utils/getBemRange.ts:9-18 | from a cursor off a word character, the search finds the nearest word character, the left one on a tie, and nothing exactly when the line has none |
| BemRange.NearestBodyUnique | src/utils/getBemRange.ts:9-18 | at most one word character is nearest to the cursor under the left-first rule |
| BemRange.BodyCursorIsNearest | src/utils/getBemRange.ts:9 | a cursor on a word character stays where it is |
| BemRange.BemRangeUnique | src/utils/getBemRange.ts:19-23 | the word range around a character is unique, so the result of `GetBemRange` is fully determined |
| BemRange.BemRangeContents | src/utils/getBemRange.ts:19-23 | every character of the range is a word character except possibly the first, which is then a `.` or `#` directly before the word |
| BemRange.RunEndsUnique | src/utils/getBemRange.ts:20-22 | two maximal runs of word characters that share an index are the same run |

## Left out

- File reading: `vscode.workspace.fs.readFile`, `Buffer` UTF-8 decoding and `await` are I/O. `UpdateCache` takes the decoded text as an `Option<string>`, with `None` for a read that throws.
- URIs: `vscode.Uri`, `fsPath` and `Uri.file` are calls into the editor. Paths are plain strings, and a hit carries its cache key instead of a rebuilt URI.
- Logging: the `console.log` and `console.error` calls have no effect on the state and are dropped.
- Concurrency: two `updateCache` calls may interleave at the `await` in the source. Each model call runs to completion.
- Document access: `getBemRange` reads `doc.lineAt(pos.line).text`. The model takes that text and the line number as parameters, and returns `Range` and `Position` datatypes in place of the `vscode` classes.
- StyleCache.NormalizePath: lower-cases ASCII letters only, because `toLowerCase` on the rest of Unicode depends on case tables that are not modelled.
- JsBuiltins.FindIndex: gives the index of the element `find` returns, and the model reads the element at that index.
- Characters outside the Basic Multilingual Plane: a Dafny `char` is a Unicode scalar value, while JavaScript strings are indexed by UTF-16 code unit. The model covers text with no character outside the Basic Multilingual Plane; after such a character its columns (indents, cursor, range ends) differ from the editor's UTF-16 columns by one per astral character. There is no Unicode normalisation.
- `src/extension.ts` is not part of this model. It holds activation, file discovery and watchers, the definition provider, and the extraction of `<style lang="stylus">` blocks.
