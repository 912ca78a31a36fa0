/**
 * `parseStylus`: one pass over the lines of a Stylus stylesheet with a stack
 * of open indentation levels, producing one symbol per selector line.
 *
 * `ParseStylus` is the loop of the source; `Parse` is the same scan written
 * as a function, and `ParseCharacterization` describes its result without the
 * stack: which lines give a symbol, at which column, in which order, and which
 * earlier symbol an `&` token is concatenated onto.
 */
module StylusParser {
  import opened Wrappers
  import opened JsBuiltins

  /** A selector found in the stylesheet with its zero-based line and column. */
  datatype StyleSymbol = StyleSymbol(fullSelector: string, line: nat, character: nat)

  /** An open nesting level: the column of its line and its resolved selector. */
  datatype Frame = Frame(indent: nat, selector: string)

  /** What the scan carries from line to line. */
  datatype ScanState = ScanState(stack: seq<Frame>, symbols: seq<StyleSymbol>)

  /** The candidate selector of a line: its trimmed text up to the first space or `{`. */
  function LineToken(lineText: string): string {
    HeadBeforeSpaceOrBrace(Trim(lineText))
  }

  predicate StartsWithAmpersand(token: string) {
    |token| > 0 && token[0] == '&'
  }

  /** A token holding `:` that does not start with `&` is taken for a declaration. */
  predicate IsDeclaration(token: string) {
    ':' in token && !StartsWithAmpersand(token)
  }

  /** Whether a line yields a symbol: it is not blank and its token is no declaration. */
  predicate Emits(lineText: string) {
    SearchNonSpace(lineText) >= 0 && !IsDeclaration(LineToken(lineText))
  }

  /** The stack after popping every top frame whose indent is at least `indent`. */
  function PopTo(stack: seq<Frame>, indent: nat): (r: seq<Frame>)
    ensures |r| <= |stack| && r == stack[..|r|]
    ensures r == [] || r[|r| - 1].indent < indent
    ensures forall k :: |r| <= k < |stack| ==> stack[k].indent >= indent
  {
    if |stack| > 0 && stack[|stack| - 1].indent >= indent then PopTo(stack[..|stack| - 1], indent)
    else stack
  }

  /** The selector of a token once its parent (the top of the popped stack) is known. */
  function Resolve(popped: seq<Frame>, token: string): string {
    if StartsWithAmpersand(token) && |popped| > 0 then popped[|popped| - 1].selector + token[1..]
    else token
  }

  /** What the body of the loop does with line number `index`. */
  function Step(st: ScanState, lineText: string, index: nat): ScanState {
    var indent := SearchNonSpace(lineText);
    if indent == -1 then st
    else
      var token := LineToken(lineText);
      if IsDeclaration(token) then st
      else
        var popped := PopTo(st.stack, indent);
        var selector := Resolve(popped, token);
        ScanState(popped + [Frame(indent, selector)], st.symbols + [StyleSymbol(selector, index, indent)])
  }

  /** The state after the first `n` lines. */
  function Scan(lines: seq<string>, n: nat): ScanState
    requires n <= |lines|
  {
    if n == 0 then ScanState([], []) else Step(Scan(lines, n - 1), lines[n - 1], n - 1)
  }

  /** The symbols of a whole stylesheet. */
  function Parse(content: string): seq<StyleSymbol> {
    var lines := Split(content, '\n');
    Scan(lines, |lines|).symbols
  }

  /** `parseStylus` */
  method ParseStylus(content: string) returns (symbols: seq<StyleSymbol>)
    ensures symbols == Parse(content)
  {
    symbols := [];
    var stack: seq<Frame> := [];
    var lines := Split(content, '\n');
    for index := 0 to |lines|
      invariant Scan(lines, index) == ScanState(stack, symbols)
    {
      var lineText := lines[index];
      var indent := SearchNonSpace(lineText);
      if indent == -1 {
        continue;
      }
      var currentSelector := LineToken(lineText);
      if ':' in currentSelector && !StartsWithAmpersand(currentSelector) {
        continue;
      }
      ghost var before := stack;
      while |stack| > 0 && stack[|stack| - 1].indent >= indent
        invariant PopTo(stack, indent) == PopTo(before, indent)
      {
        stack := stack[..|stack| - 1];
      }
      ghost var token := currentSelector;
      if StartsWithAmpersand(currentSelector) && |stack| > 0 {
        currentSelector := stack[|stack| - 1].selector + currentSelector[1..];
      }
      assert currentSelector == Resolve(stack, token);
      stack := stack + [Frame(indent, currentSelector)];
      symbols := symbols + [StyleSymbol(currentSelector, index, indent)];
    }
  }

  // ----- The result described without the stack -----

  /** The index of the last symbol whose column is less than `indent`. */
  function NearestShallower(syms: seq<StyleSymbol>, indent: nat): (r: Option<nat>)
    ensures r.Some? ==> r.value < |syms|
  {
    if |syms| == 0 then None
    else if syms[|syms| - 1].character < indent then Some(|syms| - 1)
    else NearestShallower(syms[..|syms| - 1], indent)
  }

  /** `NearestShallower` finds the last symbol at a smaller column, and finds
      none exactly when every symbol is at `indent` or deeper. */
  lemma {:induction false} NearestShallowerIsLast(syms: seq<StyleSymbol>, indent: nat)
    ensures var r := NearestShallower(syms, indent);
      && (r.Some? ==> syms[r.value].character < indent)
      && (r.Some? ==> forall k :: r.value < k < |syms| ==> syms[k].character >= indent)
      && (r.None? <==> forall k :: 0 <= k < |syms| ==> syms[k].character >= indent)
  {
    if |syms| > 0 && syms[|syms| - 1].character >= indent {
      var init := syms[..|syms| - 1];
      NearestShallowerIsLast(init, indent);
      assert forall k :: 0 <= k < |init| ==> init[k] == syms[k];
    }
  }

  /** The selector a token at column `indent` gets after the symbols `before`:
      an `&` token is appended to the selector of the nearest earlier symbol
      at a smaller column, any other token is kept as it is. */
  function ExpectedSelector(before: seq<StyleSymbol>, indent: nat, token: string): string {
    match NearestShallower(before, indent)
    case Some(j) => if StartsWithAmpersand(token) && j < |before| then before[j].fullSelector + token[1..] else token
    case None => token
  }

  /** Symbol `k` comes from a line that emits, sits at that line's first
      non-whitespace column, and carries the expected selector. */
  ghost predicate SymbolFits(lines: seq<string>, syms: seq<StyleSymbol>, k: nat)
    requires k < |syms|
  {
    var s := syms[k];
    && s.line < |lines|
    && Emits(lines[s.line])
    && s.character == SearchNonSpace(lines[s.line])
    && s.fullSelector == ExpectedSelector(syms[..k], s.character, LineToken(lines[s.line]))
  }

  predicate StrictlyIncreasing(stack: seq<Frame>) {
    forall i, j :: 0 <= i < j < |stack| ==> stack[i].indent < stack[j].indent
  }

  /** The popped stack is empty exactly when no earlier symbol is shallower,
      and otherwise its top is that symbol's frame. */
  ghost predicate TopIsNearest(popped: seq<Frame>, syms: seq<StyleSymbol>, nearest: Option<nat>) {
    && (popped == [] <==> nearest.None?)
    && (nearest.Some? ==>
          nearest.value < |syms| && popped != [] &&
          popped[|popped| - 1] == Frame(syms[nearest.value].character, syms[nearest.value].fullSelector))
  }

  /** Every symbol comes from one of the first `n` lines and fits. */
  ghost predicate AllFit(lines: seq<string>, n: nat, syms: seq<StyleSymbol>) {
    forall k :: 0 <= k < |syms| ==> syms[k].line < n && SymbolFits(lines, syms, k)
  }

  predicate LinesIncrease(syms: seq<StyleSymbol>) {
    forall k, j :: 0 <= k < j < |syms| ==> syms[k].line < syms[j].line
  }

  /** Every emitting line among the first `n` has a symbol. */
  ghost predicate Covers(lines: seq<string>, n: nat, syms: seq<StyleSymbol>)
    requires n <= |lines|
  {
    forall i :: 0 <= i < n && Emits(lines[i]) ==> exists k :: 0 <= k < |syms| && syms[k].line == i
  }

  /** What the symbols after `n` lines satisfy. */
  ghost predicate SymbolsInv(lines: seq<string>, n: nat, syms: seq<StyleSymbol>)
    requires n <= |lines|
  {
    |syms| <= n && AllFit(lines, n, syms) && LinesIncrease(syms) && Covers(lines, n, syms)
  }

  /** The stack increases and, for every column, mirrors the nearest shallower symbol. */
  ghost predicate StackInv(stack: seq<Frame>, syms: seq<StyleSymbol>) {
    && StrictlyIncreasing(stack)
    && (forall d: nat :: TopIsNearest(PopTo(stack, d), syms, NearestShallower(syms, d)))
  }

  ghost predicate ScanInv(lines: seq<string>, n: nat, st: ScanState)
    requires n <= |lines|
  {
    SymbolsInv(lines, n, st.symbols) && StackInv(st.stack, st.symbols)
  }

  /** Popping to `e` and then to a smaller or equal `d` is popping to `d`. */
  lemma PopToTwice(stack: seq<Frame>, e: nat, d: nat)
    requires d <= e
    ensures PopTo(PopTo(stack, e), d) == PopTo(stack, d)
  {
  }

  /** After the pop loop every frame left on an increasing stack is shallower
      than the current line. */
  lemma PopToBelow(stack: seq<Frame>, indent: nat)
    requires StrictlyIncreasing(stack)
    ensures forall k :: 0 <= k < |PopTo(stack, indent)| ==> PopTo(stack, indent)[k].indent < indent
  {
  }

  /** Pushing the frame of a new symbol keeps the stack invariant. */
  lemma EmitKeepsStackInv(stack: seq<Frame>, syms: seq<StyleSymbol>, e: nat, sel: string, line: nat)
    requires StackInv(stack, syms)
    ensures StackInv(PopTo(stack, e) + [Frame(e, sel)], syms + [StyleSymbol(sel, line, e)])
  {
    var stack' := PopTo(stack, e) + [Frame(e, sel)];
    var syms' := syms + [StyleSymbol(sel, line, e)];
    PopToBelow(stack, e);
    assert StrictlyIncreasing(stack');
    forall d: nat
      ensures TopIsNearest(PopTo(stack', d), syms', NearestShallower(syms', d))
    {
      if d > e {
        NewFrameIsNearest(stack, syms, e, sel, line, d);
      } else {
        OldFrameIsNearest(stack, syms, e, sel, line, d);
      }
    }
  }

  /** Columns deeper than the new symbol find its frame on top. */
  lemma NewFrameIsNearest(stack: seq<Frame>, syms: seq<StyleSymbol>, e: nat, sel: string, line: nat, d: nat)
    requires StrictlyIncreasing(stack) && e < d
    ensures var stack', syms' := PopTo(stack, e) + [Frame(e, sel)], syms + [StyleSymbol(sel, line, e)];
      TopIsNearest(PopTo(stack', d), syms', NearestShallower(syms', d))
  {
    var stack' := PopTo(stack, e) + [Frame(e, sel)];
    var syms' := syms + [StyleSymbol(sel, line, e)];
    assert PopTo(stack', d) == stack';
    assert NearestShallower(syms', d) == Some(|syms|);
  }

  /** Columns at most as deep as the new symbol see the stack as before. */
  lemma OldFrameIsNearest(stack: seq<Frame>, syms: seq<StyleSymbol>, e: nat, sel: string, line: nat, d: nat)
    requires StackInv(stack, syms) && d <= e
    ensures var stack', syms' := PopTo(stack, e) + [Frame(e, sel)], syms + [StyleSymbol(sel, line, e)];
      TopIsNearest(PopTo(stack', d), syms', NearestShallower(syms', d))
  {
    var stack' := PopTo(stack, e) + [Frame(e, sel)];
    var syms' := syms + [StyleSymbol(sel, line, e)];
    assert stack'[..|stack'| - 1] == PopTo(stack, e);
    assert syms'[..|syms|] == syms;
    PopToTwice(stack, e, d);
    assert PopTo(stack', d) == PopTo(stack, d);
    assert NearestShallower(syms', d) == NearestShallower(syms, d);
    assert TopIsNearest(PopTo(stack, d), syms, NearestShallower(syms, d));
  }

  /** Appending a fitting symbol of line `n` keeps every symbol fitting. */
  lemma AppendKeepsFits(lines: seq<string>, n: nat, syms: seq<StyleSymbol>, s: StyleSymbol)
    requires AllFit(lines, n, syms)
    requires s.line == n && SymbolFits(lines, syms + [s], |syms|)
    ensures AllFit(lines, n + 1, syms + [s])
  {
    var syms' := syms + [s];
    forall k | 0 <= k < |syms'|
      ensures syms'[k].line < n + 1 && SymbolFits(lines, syms', k)
    {
      if k < |syms| {
        assert syms'[..k] == syms[..k];
        assert syms'[k] == syms[k];
        assert SymbolFits(lines, syms, k);
      }
    }
  }

  /** The symbol of line `n`, with the expected selector, fits. */
  lemma NewSymbolFits(lines: seq<string>, n: nat, syms: seq<StyleSymbol>, sel: string)
    requires n < |lines| && Emits(lines[n])
    requires sel == ExpectedSelector(syms, SearchNonSpace(lines[n]), LineToken(lines[n]))
    ensures SymbolFits(lines, syms + [StyleSymbol(sel, n, SearchNonSpace(lines[n]))], |syms|)
  {
    var syms' := syms + [StyleSymbol(sel, n, SearchNonSpace(lines[n]))];
    assert syms'[..|syms|] == syms;
  }

  /** Every emitting line among the first `n + 1` has a symbol once line `n`'s is appended. */
  lemma AppendKeepsCoverage(lines: seq<string>, n: nat, syms: seq<StyleSymbol>, s: StyleSymbol)
    requires n < |lines| && s.line == n
    requires Covers(lines, n, syms)
    ensures Covers(lines, n + 1, syms + [s])
  {
    var syms' := syms + [s];
    forall i | 0 <= i < n + 1 && Emits(lines[i])
      ensures exists k :: 0 <= k < |syms'| && syms'[k].line == i
    {
      if i == n {
        assert syms'[|syms|].line == i;
      } else {
        var k :| 0 <= k < |syms| && syms[k].line == i;
        assert syms'[k].line == i;
      }
    }
  }

  /** Appending the symbol of line `n` after symbols of earlier lines keeps
      them in strictly increasing line order. */
  lemma AppendKeepsOrder(lines: seq<string>, n: nat, syms: seq<StyleSymbol>, s: StyleSymbol)
    requires s.line == n && AllFit(lines, n, syms) && LinesIncrease(syms)
    ensures LinesIncrease(syms + [s])
  {
    var syms' := syms + [s];
    forall k, j | 0 <= k < j < |syms'| ensures syms'[k].line < syms'[j].line {
      assert syms'[k] == syms[k];
      if j < |syms| {
        assert syms'[j] == syms[j];
      }
    }
  }

  /** Appending a fitting symbol for line `n` keeps the symbol invariant. */
  lemma EmitKeepsSymbolsInv(lines: seq<string>, n: nat, syms: seq<StyleSymbol>, s: StyleSymbol)
    requires n < |lines| && SymbolsInv(lines, n, syms)
    requires s.line == n && SymbolFits(lines, syms + [s], |syms|)
    ensures SymbolsInv(lines, n + 1, syms + [s])
  {
    AppendKeepsFits(lines, n, syms, s);
    AppendKeepsOrder(lines, n, syms, s);
    AppendKeepsCoverage(lines, n, syms, s);
  }

  /** A line that emits nothing keeps the symbol invariant. */
  lemma SkipKeepsSymbolsInv(lines: seq<string>, n: nat, syms: seq<StyleSymbol>)
    requires n < |lines| && SymbolsInv(lines, n, syms)
    requires !Emits(lines[n])
    ensures SymbolsInv(lines, n + 1, syms)
  {
  }

  /** Line `n - 1` keeps the scan invariant. */
  lemma StepKeepsInv(lines: seq<string>, n: nat)
    requires 0 < n <= |lines|
    requires ScanInv(lines, n - 1, Scan(lines, n - 1))
    ensures ScanInv(lines, n, Scan(lines, n))
  {
    var m := n - 1;
    var st := Scan(lines, m);
    var lineText := lines[m];
    assert Scan(lines, n) == Step(st, lineText, m);
    var indent := SearchNonSpace(lineText);
    var token := LineToken(lineText);
    if indent == -1 || IsDeclaration(token) {
      assert Scan(lines, n) == st;
      SkipKeepsSymbolsInv(lines, m, st.symbols);
    } else {
      var e: nat := indent;
      var popped := PopTo(st.stack, e);
      var sel := Resolve(popped, token);
      assert Scan(lines, n) == ScanState(popped + [Frame(e, sel)], st.symbols + [StyleSymbol(sel, m, e)]);
      assert TopIsNearest(popped, st.symbols, NearestShallower(st.symbols, e));
      assert sel == ExpectedSelector(st.symbols, e, token);
      NewSymbolFits(lines, m, st.symbols, sel);
      EmitKeepsSymbolsInv(lines, m, st.symbols, StyleSymbol(sel, m, e));
      EmitKeepsStackInv(st.stack, st.symbols, e, sel, m);
    }
  }

  lemma {:induction false} ScanKeepsInv(lines: seq<string>, n: nat)
    requires n <= |lines|
    ensures ScanInv(lines, n, Scan(lines, n))
  {
    if n > 0 {
      ScanKeepsInv(lines, n - 1);
      StepKeepsInv(lines, n);
    }
  }

  /** The result of `Parse` without the stack: at most one symbol per line, in
      line order; a symbol for exactly the lines that are neither blank nor
      declarations, at the line's first non-whitespace column; and each
      selector is the raw token, or for an `&` token with a shallower symbol
      before it, that symbol's selector followed by the token without `&`. */
  lemma ParseCharacterization(content: string)
    ensures var lines := Split(content, '\n');
      var syms := Parse(content);
      && |syms| <= |lines|
      && (forall k :: 0 <= k < |syms| ==> SymbolFits(lines, syms, k))
      && (forall k, j :: 0 <= k < j < |syms| ==> syms[k].line < syms[j].line)
      && (forall i :: 0 <= i < |lines| && Emits(lines[i]) ==> exists k :: 0 <= k < |syms| && syms[k].line == i)
  {
    var lines := Split(content, '\n');
    ScanKeepsInv(lines, |lines|);
  }

  /** The indents on the stack strictly increase from bottom to top. */
  lemma StackIndentsIncrease(lines: seq<string>, n: nat)
    requires n <= |lines|
    ensures StrictlyIncreasing(Scan(lines, n).stack)
  {
    ScanKeepsInv(lines, n);
  }

  /** A blank line or a declaration line adds no symbol and leaves the stack alone. */
  lemma SkippedLineChangesNothing(lines: seq<string>, n: nat)
    requires n < |lines| && !Emits(lines[n])
    ensures Scan(lines, n + 1) == Scan(lines, n)
  {
  }

  /** An `&` symbol with a shallower symbol before it extends that symbol's selector. */
  lemma AmpersandExtendsParent(content: string, k: nat)
    requires k < |Parse(content)|
    ensures var lines := Split(content, '\n');
      var syms := Parse(content);
      var nearest := NearestShallower(syms[..k], syms[k].character);
      && syms[k].line < |lines|
      && (StartsWithAmpersand(LineToken(lines[syms[k].line])) && nearest.Some? ==>
            && nearest.value < k
            && syms[nearest.value].character < syms[k].character
            && StartsWith(syms[k].fullSelector, syms[nearest.value].fullSelector))
  {
    ParseCharacterization(content);
    var syms := Parse(content);
    assert SymbolFits(Split(content, '\n'), syms, k);
    var nearest := NearestShallower(syms[..k], syms[k].character);
    NearestShallowerIsLast(syms[..k], syms[k].character);
    if nearest.Some? {
      assert syms[..k][nearest.value] == syms[nearest.value];
    }
  }
}
