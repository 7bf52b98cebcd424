/** Include expansion over a finite set of files. An include line carries the path
    it resolves to. */
module Include {

  type Path = string

  datatype SourceLine = IncludeLine(target: Path) | PlainLine(text: string)

  type Files = map<Path, seq<SourceLine>>

  datatype Expansion =
    | Expanded(lines: seq<SourceLine>)
    | RecursiveInclude(chain: seq<Path>)
    | CannotRead(path: Path)

  function OnStack(stack: seq<Path>): set<Path>
  {
    set p | p in stack
  }

  /** How many readable files are not being expanded: what bounds the recursion. */
  function Remaining(files: Files, stack: seq<Path>): nat
  {
    |files.Keys - OnStack(stack)|
  }

  lemma RemainingShrinks(files: Files, stack: seq<Path>, path: Path)
    requires path in files && path !in stack
    ensures Remaining(files, stack + [path]) < Remaining(files, stack)
  {
    var a, b := files.Keys - OnStack(stack), files.Keys - OnStack(stack + [path]);
    assert path in a;
    assert b == a - {path};
  }

  /** `_expand_file` */
  function ExpandFile(files: Files, path: Path, stack: seq<Path>): Expansion
    decreases Remaining(files, stack), 0, 0
  {
    if path in stack then RecursiveInclude(stack + [path])
    else if path !in files then CannotRead(path)
    else
      RemainingShrinks(files, stack, path);
      ExpandText(files, files[path], |files[path]|, stack + [path])
  }

  /** `_expand_text` over the first n lines. */
  function ExpandText(files: Files, text: seq<SourceLine>, n: nat, stack: seq<Path>): Expansion
    requires n <= |text|
    decreases Remaining(files, stack), 1, n
  {
    if n == 0 then Expanded([])
    else
      var before := ExpandText(files, text, n - 1, stack);
      if !before.Expanded? then before
      else if text[n - 1].PlainLine? then Expanded(before.lines + [text[n - 1]])
      else
        var included := ExpandFile(files, text[n - 1].target, stack);
        if included.Expanded? then Expanded(before.lines + included.lines) else included
  }

  method ReadFile(files: Files, path: Path, stack: seq<Path>) returns (r: Expansion)
    ensures r == ExpandFile(files, path, stack)
    decreases Remaining(files, stack), 0
  {
    if path in stack { return RecursiveInclude(stack + [path]); }
    if path !in files { return CannotRead(path); }
    RemainingShrinks(files, stack, path);
    r := ReadText(files, files[path], stack + [path]);
  }

  method ReadText(files: Files, text: seq<SourceLine>, stack: seq<Path>) returns (r: Expansion)
    ensures r == ExpandText(files, text, |text|, stack)
    decreases Remaining(files, stack), 1
  {
    hide ExpandFile;
    var expanded := [];
    var n := 0;
    while n < |text|
      invariant 0 <= n <= |text|
      invariant ExpandText(files, text, n, stack) == Expanded(expanded)
    {
      var line := text[n];
      if line.IncludeLine? {
        var included := ReadFile(files, line.target, stack);
        if !included.Expanded? {
          TextStops(files, text, n + 1, |text|, stack);
          return included;
        }
        expanded := expanded + included.lines;
      } else {
        expanded := expanded + [line];
      }
      n := n + 1;
    }
    r := Expanded(expanded);
  }

  lemma {:induction false} TextStops(files: Files, text: seq<SourceLine>, n: nat, m: nat, stack: seq<Path>)
    requires n <= m <= |text| && !ExpandText(files, text, n, stack).Expanded?
    ensures ExpandText(files, text, m, stack) == ExpandText(files, text, n, stack)
    decreases m
  {
    hide ExpandFile;
    if n < m { TextStops(files, text, n, m - 1, stack); }
  }

  // ------------------------------------------------------------ the includes

  predicate Includes(files: Files, path: Path, target: Path)
  {
    path in files && IncludeLine(target) in files[path]
  }

  /** A path through the include graph. */
  predicate Chain(files: Files, root: Path, chain: seq<Path>)
  {
    && |chain| > 0 && chain[0] == root
    && forall i :: 0 <= i < |chain| - 1 ==> Includes(files, chain[i], chain[i + 1])
  }

  /** The chain ends in a readable file that is new to the stack and the chain. */
  predicate EndsWell(files: Files, chain: seq<Path>, stack: seq<Path>)
    requires |chain| > 0
  {
    var last := chain[|chain| - 1];
    last in files && last !in stack && last !in chain[..|chain| - 1]
  }

  /** Every file reachable from the root is readable, and no include chain comes
      back to a file it went through. */
  ghost predicate ReadableAndAcyclic(files: Files, root: Path, stack: seq<Path>)
  {
    forall chain :: Chain(files, root, chain) ==> EndsWell(files, chain, stack)
  }

  /** A text expands when all its includes do. */
  lemma {:induction false} TextExpands(files: Files, text: seq<SourceLine>, n: nat, stack: seq<Path>)
    requires n <= |text|
    ensures ExpandText(files, text, n, stack).Expanded? <==>
              forall k :: 0 <= k < n && text[k].IncludeLine? ==> ExpandFile(files, text[k].target, stack).Expanded?
  {
    hide ExpandFile;
    if n > 0 { TextExpands(files, text, n - 1, stack); }
  }

  lemma {:induction false} ChainEndsWell(files: Files, root: Path, stack: seq<Path>, chain: seq<Path>)
    requires ExpandFile(files, root, stack).Expanded? && Chain(files, root, chain)
    ensures EndsWell(files, chain, stack)
    decreases |chain|
  {
    hide ExpandText;
    if |chain| > 1 {
      var next, rest := chain[1], chain[1..];
      var text := files[root];
      TextExpands(files, text, |text|, stack + [root]);
      assert Includes(files, chain[0], chain[1]);
      var k :| 0 <= k < |text| && text[k] == IncludeLine(next);
      assert ExpandFile(files, text[k].target, stack + [root]).Expanded?;
      RestIsChain(files, root, chain);
      ChainEndsWell(files, next, stack + [root], rest);
      assert rest[..|rest| - 1] == chain[1..|chain| - 1];
      assert chain[..|chain| - 1] == [root] + chain[1..|chain| - 1];
    }
  }

  lemma RestIsChain(files: Files, root: Path, chain: seq<Path>)
    requires Chain(files, root, chain) && |chain| > 1
    ensures Chain(files, chain[1], chain[1..])
  {
    forall i | 0 <= i < |chain[1..]| - 1
      ensures Includes(files, chain[1..][i], chain[1..][i + 1])
    {
      assert Includes(files, chain[i + 1], chain[i + 2]);
    }
  }

  lemma ExtendChain(files: Files, root: Path, next: Path, chain: seq<Path>)
    requires Includes(files, root, next) && Chain(files, next, chain)
    ensures Chain(files, root, [root] + chain)
  {
    var longer := [root] + chain;
    forall i | 0 <= i < |longer| - 1
      ensures Includes(files, longer[i], longer[i + 1])
    {
      if i > 0 { assert Includes(files, chain[i - 1], chain[i]); }
    }
  }

  lemma {:induction false} GoodExpands(files: Files, root: Path, stack: seq<Path>)
    requires ReadableAndAcyclic(files, root, stack)
    ensures ExpandFile(files, root, stack).Expanded?
    decreases Remaining(files, stack)
  {
    hide ExpandText;
    assert Chain(files, root, [root]);
    assert EndsWell(files, [root], stack);
    var text := files[root];
    RemainingShrinks(files, stack, root);
    forall k | 0 <= k < |text| && text[k].IncludeLine?
      ensures ExpandFile(files, text[k].target, stack + [root]).Expanded?
    {
      GoodBelow(files, root, stack, text[k].target);
      GoodExpands(files, text[k].target, stack + [root]);
    }
    TextExpands(files, text, |text|, stack + [root]);
  }

  lemma GoodBelow(files: Files, root: Path, stack: seq<Path>, next: Path)
    requires ReadableAndAcyclic(files, root, stack) && Includes(files, root, next)
    ensures ReadableAndAcyclic(files, next, stack + [root])
  {
    forall chain | Chain(files, next, chain)
      ensures EndsWell(files, chain, stack + [root])
    {
      ExtendChain(files, root, next, chain);
      var longer := [root] + chain;
      assert EndsWell(files, longer, stack);
      assert longer[..|longer| - 1] == [root] + chain[..|chain| - 1];
    }
  }

  /** Include expansion, which always terminates, succeeds exactly when every
      reachable file is readable and the reachable include graph has no cycle. */
  lemma ExpandsExactly(files: Files, root: Path)
    ensures ExpandFile(files, root, []).Expanded? <==> ReadableAndAcyclic(files, root, [])
  {
    if ExpandFile(files, root, []).Expanded? {
      forall chain | Chain(files, root, chain)
        ensures EndsWell(files, chain, [])
      {
        ChainEndsWell(files, root, [], chain);
      }
    } else if ReadableAndAcyclic(files, root, []) {
      GoodExpands(files, root, []);
    }
  }

  // ------------------------------------------------------------- the output

  predicate NoIncludes(lines: seq<SourceLine>)
  {
    forall i :: 0 <= i < |lines| ==> lines[i].PlainLine?
  }

  /** No include line is left in an expanded text. */
  lemma {:induction false} NothingLeft(files: Files, text: seq<SourceLine>, n: nat, stack: seq<Path>)
    requires n <= |text| && ExpandText(files, text, n, stack).Expanded?
    ensures NoIncludes(ExpandText(files, text, n, stack).lines)
    decreases Remaining(files, stack), n
  {
    if n > 0 {
      NothingLeft(files, text, n - 1, stack);
      var line := text[n - 1];
      if line.IncludeLine? {
        RemainingShrinks(files, stack, line.target);
        NothingLeft(files, files[line.target], |files[line.target]|, stack + [line.target]);
      }
    }
  }

  /** The result does not depend on who asked: two expansions of the same text
      that both succeed give the same lines. */
  lemma {:induction false} StackDoesNotMatter(files: Files, text: seq<SourceLine>, n: nat, a: seq<Path>, b: seq<Path>)
    requires n <= |text| && ExpandText(files, text, n, a).Expanded? && ExpandText(files, text, n, b).Expanded?
    ensures ExpandText(files, text, n, a) == ExpandText(files, text, n, b)
    decreases Remaining(files, a), n
  {
    if n > 0 {
      StackDoesNotMatter(files, text, n - 1, a, b);
      var line := text[n - 1];
      if line.IncludeLine? {
        RemainingShrinks(files, a, line.target);
        StackDoesNotMatter(files, files[line.target], |files[line.target]|, a + [line.target], b + [line.target]);
      }
    }
  }

  /** A reported recursion is one: the chain ends in a file it contains. */
  lemma {:induction false} ReportedChainRepeats(files: Files, text: seq<SourceLine>, n: nat, stack: seq<Path>)
    requires n <= |text| && ExpandText(files, text, n, stack).RecursiveInclude?
    ensures var chain := ExpandText(files, text, n, stack).chain;
            && |chain| > |stack| && chain[..|stack|] == stack
            && chain[|chain| - 1] in chain[..|chain| - 1]
    decreases Remaining(files, stack), n
  {
    if n > 0 {
      var before := ExpandText(files, text, n - 1, stack);
      if before.RecursiveInclude? {
        ReportedChainRepeats(files, text, n - 1, stack);
      } else {
        var target := text[n - 1].target;
        if target in stack {
          assert (stack + [target])[..|stack|] == stack;
        } else {
          RemainingShrinks(files, stack, target);
          ReportedChainRepeats(files, files[target], |files[target]|, stack + [target]);
          var chain := ExpandText(files, text, n, stack).chain;
          assert chain[..|stack|] == chain[..|stack| + 1][..|stack|];
        }
      }
    }
  }
}
