/**
 * Two small stylesheets run through `Parse`: an `&` line is joined onto its
 * parent, while a nested line without `&` keeps its own token.
 */
module StylusParserExamples {
  import opened JsBuiltins
  import opened StylusParser

  lemma TopLevelLine()
    ensures SearchNonSpace(".a") == 0 && LineToken(".a") == ".a"
  {
    assert TrimStart(".a") == ".a";
    assert TrimEnd(".a") == ".a";
  }

  lemma NestedModifierLine()
    ensures SearchNonSpace(" &-b") == 1 && LineToken(" &-b") == "&-b"
  {
    assert " &-b"[1..] == "&-b";
    assert TrimStart(" &-b") == "&-b";
    assert TrimEnd("&-b") == "&-b";
    assert HeadBeforeSpaceOrBrace("&-b") == "&-b";
  }

  lemma NestedClassLine()
    ensures SearchNonSpace(" .b") == 1 && LineToken(" .b") == ".b"
  {
    assert " .b"[1..] == ".b";
    assert TrimStart(" .b") == ".b";
    assert TrimEnd(".b") == ".b";
    assert HeadBeforeSpaceOrBrace(".b") == ".b";
  }

  lemma TwoLines(first: string, second: string)
    requires '\n' !in first && '\n' !in second
    ensures Split(first + "\n" + second, '\n') == [first, second]
  {
    var lines := [first, second];
    assert Join(lines, '\n') == first + "\n" + second;
    SplitJoin(lines, '\n');
  }

  lemma StepTopLevel(st: ScanState)
    requires st == ScanState([], [])
    ensures Step(st, ".a", 0) == ScanState([Frame(0, ".a")], [StyleSymbol(".a", 0, 0)])
  {
    TopLevelLine();
  }

  lemma StepNestedModifier(st: ScanState)
    requires st == ScanState([Frame(0, ".a")], [StyleSymbol(".a", 0, 0)])
    ensures Step(st, " &-b", 1).symbols == [StyleSymbol(".a", 0, 0), StyleSymbol(".a-b", 1, 1)]
  {
    NestedModifierLine();
    assert PopTo([Frame(0, ".a")], 1) == [Frame(0, ".a")];
    assert "&-b"[1..] == "-b";
    assert ".a" + "-b" == ".a-b";
  }

  lemma StepNestedClass(st: ScanState)
    requires st == ScanState([Frame(0, ".a")], [StyleSymbol(".a", 0, 0)])
    ensures Step(st, " .b", 1).symbols == [StyleSymbol(".a", 0, 0), StyleSymbol(".b", 1, 1)]
  {
    NestedClassLine();
    assert PopTo([Frame(0, ".a")], 1) == [Frame(0, ".a")];
  }

  /** `.a` followed by ` &-b` gives `.a` and `.a-b`. */
  lemma ModifierIsConcatenated()
    ensures Parse(".a\n &-b") == [StyleSymbol(".a", 0, 0), StyleSymbol(".a-b", 1, 1)]
  {
    var lines := [".a", " &-b"];
    TwoLines(".a", " &-b");
    assert ".a" + "\n" + " &-b" == ".a\n &-b";
    StepTopLevel(Scan(lines, 0));
    StepNestedModifier(Scan(lines, 1));
  }

  /** `.a` followed by ` .b` gives `.a` and `.b`: no descendant join. */
  lemma NestedClassIsNotJoined()
    ensures Parse(".a\n .b") == [StyleSymbol(".a", 0, 0), StyleSymbol(".b", 1, 1)]
  {
    var lines := [".a", " .b"];
    TwoLines(".a", " .b");
    assert ".a" + "\n" + " .b" == ".a\n .b";
    StepTopLevel(Scan(lines, 0));
    StepNestedClass(Scan(lines, 1));
  }
}
