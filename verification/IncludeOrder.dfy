/** What include expansion puts out: the lines of a file in their order, with each
    include line replaced in place by the output of its file; and what a reported
    fault says about the files. */
module IncludeOrder {
  import opened Include

  // -------------------------------------------------------- texts in sequence

  /** A text without include lines expands to itself. */
  lemma {:induction false} PlainText(files: Files, text: seq<SourceLine>, n: nat, stack: seq<Path>)
    requires n <= |text| && NoIncludes(text)
    ensures ExpandText(files, text, n, stack) == Expanded(text[..n])
  {
    if n > 0 {
      PlainText(files, text, n - 1, stack);
      assert text[..n - 1] + [text[n - 1]] == text[..n];
    }
  }

  /** Only the first n lines matter. */
  lemma {:induction false} Prefix(files: Files, a: seq<SourceLine>, b: seq<SourceLine>, n: nat, stack: seq<Path>)
    requires n <= |a| && n <= |b| && a[..n] == b[..n]
    ensures ExpandText(files, a, n, stack) == ExpandText(files, b, n, stack)
  {
    hide ExpandFile;
    if n > 0 {
      assert a[n - 1] == a[..n][n - 1] == b[..n][n - 1] == b[n - 1];
      assert a[..n - 1] == a[..n][..n - 1] == b[..n][..n - 1] == b[..n - 1];
      Prefix(files, a, b, n - 1, stack);
    }
  }

  function Whole(files: Files, text: seq<SourceLine>, stack: seq<Path>): Expansion
  {
    ExpandText(files, text, |text|, stack)
  }

  /** Two results one after the other: the first fault wins. */
  function Then(first: Expansion, second: Expansion): Expansion
  {
    if !first.Expanded? then first else if !second.Expanded? then second
    else Expanded(first.lines + second.lines)
  }

  /** Two texts one after the other expand one after the other. */
  lemma {:induction false} TextsInSequence(files: Files, a: seq<SourceLine>, b: seq<SourceLine>, stack: seq<Path>)
    ensures Whole(files, a + b, stack) == Then(Whole(files, a, stack), Whole(files, b, stack))
    decreases |b|
  {
    hide ExpandFile;
    var n := |a + b|;
    if b == [] {
      assert a + b == a;
    } else {
      var init, last := b[..|b| - 1], b[|b| - 1];
      TextsInSequence(files, a, init, stack);
      assert (a + b)[..n - 1] == a + init;
      Prefix(files, a + b, a + init, n - 1, stack);
      Prefix(files, b, init, |b| - 1, stack);
      assert (a + b)[n - 1] == last;
      LastLine(files, a + b, stack);
      LastLine(files, b, stack);
    }
  }

  /** The last line of a text: itself, or the output of the file it includes. */
  lemma LastLine(files: Files, text: seq<SourceLine>, stack: seq<Path>)
    requires text != []
    ensures var last := text[|text| - 1];
            Whole(files, text, stack) == Then(ExpandText(files, text, |text| - 1, stack),
              if last.PlainLine? then Expanded([last]) else ExpandFile(files, last.target, stack))
  {
    hide ExpandFile;
  }

  // -------------------------------------------------------- the output of a file

  /** A file that expands below a stack of others also expands on its own, to the
      same lines. */
  lemma ExpandsAlone(files: Files, path: Path, stack: seq<Path>)
    requires ExpandFile(files, path, stack).Expanded?
    ensures ExpandFile(files, path, []) == ExpandFile(files, path, stack)
  {
    hide ExpandText;
    forall chain | Chain(files, path, chain)
      ensures EndsWell(files, chain, [])
    {
      ChainEndsWell(files, path, stack, chain);
    }
    GoodExpands(files, path, []);
    RemainingShrinks(files, stack, path);
    assert [path] == [] + [path];
    StackDoesNotMatter(files, files[path], |files[path]|, stack + [path], [path]);
  }

  predicate Expands(files: Files, path: Path) { ExpandFile(files, path, []).Expanded? }

  function Output(files: Files, path: Path): seq<SourceLine>
    requires Expands(files, path)
  {
    ExpandFile(files, path, []).lines
  }

  predicate TargetsExpand(files: Files, text: seq<SourceLine>)
  {
    forall k :: 0 <= k < |text| && text[k].IncludeLine? ==> Expands(files, text[k].target)
  }

  /** What a line stands for. */
  function Piece(files: Files, line: SourceLine): seq<SourceLine>
    requires line.IncludeLine? ==> Expands(files, line.target)
  {
    if line.IncludeLine? then Output(files, line.target) else [line]
  }

  /** The lines of a text from the first on, each replaced by what it stands for. */
  function Traversal(files: Files, text: seq<SourceLine>): seq<SourceLine>
    requires TargetsExpand(files, text)
  {
    if text == [] then [] else Piece(files, text[0]) + Traversal(files, text[1..])
  }

  lemma {:induction false} TraversalOneMore(files: Files, text: seq<SourceLine>, line: SourceLine)
    requires TargetsExpand(files, text + [line])
    ensures TargetsExpand(files, text) && (line.IncludeLine? ==> Expands(files, line.target))
    ensures Traversal(files, text + [line]) == Traversal(files, text) + Piece(files, line)
  {
    hide Expands, Output;
    assert (text + [line])[|text|] == line;
    assert forall k :: 0 <= k < |text| ==> (text + [line])[k] == text[k];
    if text != [] {
      assert (text + [line])[1..] == text[1..] + [line];
      TraversalOneMore(files, text[1..], line);
    } else {
      assert text + [line] == [line] && [line][1..] == [];
    }
  }

  /** An expanded text is its traversal. */
  lemma {:induction false} TextIsTraversal(files: Files, text: seq<SourceLine>, n: nat, stack: seq<Path>)
    requires n <= |text| && ExpandText(files, text, n, stack).Expanded?
    ensures TargetsExpand(files, text[..n])
    ensures ExpandText(files, text, n, stack).lines == Traversal(files, text[..n])
  {
    hide ExpandFile, Traversal;
    if n > 0 {
      TextIsTraversal(files, text, n - 1, stack);
      var line := text[n - 1];
      assert text[..n] == text[..n - 1] + [line];
      if line.IncludeLine? { ExpandsAlone(files, line.target, stack); }
      TargetsSnoc(files, text[..n - 1], line);
      TraversalOneMore(files, text[..n - 1], line);
    } else {
      EmptyTraversal(files);
    }
  }

  lemma TargetsSnoc(files: Files, text: seq<SourceLine>, line: SourceLine)
    requires TargetsExpand(files, text) && (line.IncludeLine? ==> Expands(files, line.target))
    ensures TargetsExpand(files, text + [line])
  {
    hide Expands;
  }

  lemma EmptyTraversal(files: Files)
    ensures TargetsExpand(files, []) && Traversal(files, []) == []
  {
  }

  /** The output of a file is the traversal of its text: line by line, in order,
      every include line replaced in place by the output of its file. */
  lemma OutputInOrder(files: Files, path: Path)
    requires Expands(files, path)
    ensures path in files && TargetsExpand(files, files[path])
    ensures Output(files, path) == Traversal(files, files[path])
  {
    hide ExpandText, Traversal, TargetsExpand;
    RemainingShrinks(files, [], path);
    assert [] + [path] == [path];
    var text := files[path];
    TextIsTraversal(files, text, |text|, [path]);
    assert text[..|text|] == text;
  }

  lemma {:induction false} TraversalInSequence(files: Files, a: seq<SourceLine>, b: seq<SourceLine>)
    requires TargetsExpand(files, a + b)
    ensures TargetsExpand(files, a) && TargetsExpand(files, b)
    ensures Traversal(files, a + b) == Traversal(files, a) + Traversal(files, b)
  {
    hide Expands, Output;
    assert forall k :: 0 <= k < |b| ==> (a + b)[|a| + k] == b[k];
    assert forall k :: 0 <= k < |a| ==> (a + b)[k] == a[k];
    if a == [] {
      assert a + b == b;
    } else {
      assert (a + b)[1..] == a[1..] + b;
      TraversalInSequence(files, a[1..], b);
    }
  }

  lemma {:induction false} PlainTraversal(files: Files, text: seq<SourceLine>)
    requires NoIncludes(text)
    ensures TargetsExpand(files, text) && Traversal(files, text) == text
  {
    if text != [] { PlainTraversal(files, text[1..]); }
  }

  /** An included file comes out between what stands before its include line and
      what stands after it. */
  lemma IncludedInPlace(files: Files, path: Path, before: seq<SourceLine>, target: Path, after: seq<SourceLine>)
    requires Expands(files, path) && files[path] == before + [IncludeLine(target)] + after
    ensures Expands(files, target) && TargetsExpand(files, before) && TargetsExpand(files, after)
    ensures Output(files, path)
         == Traversal(files, before) + Output(files, target) + Traversal(files, after)
    ensures NoIncludes(before) && NoIncludes(after) ==>
              Output(files, path) == before + Output(files, target) + after
  {
    hide Expands, Output;
    var line := IncludeLine(target);
    OutputInOrder(files, path);
    TraversalInSequence(files, before + [line], after);
    TraversalInSequence(files, before, [line]);
    assert [line][0] == line && [line][1..] == [];
    EmptyTraversal(files);
    assert Traversal(files, [line]) == Output(files, target);
    if NoIncludes(before) && NoIncludes(after) {
      PlainTraversal(files, before);
      PlainTraversal(files, after);
    }
  }

  // ------------------------------------------------------------ reported faults

  /** A fault below a chain of open files: a recursion is the chain of includes
      from the root to a file that is open already, an unreadable file is one the
      root reaches. */
  ghost predicate FaultIsReal(files: Files, root: Path, r: Expansion)
  {
    match r
    case Expanded(_) => true
    case RecursiveInclude(chain) =>
      Chain(files, root, chain) && chain[|chain| - 1] in chain[..|chain| - 1]
    case CannotRead(path) =>
      path !in files && exists chain :: Chain(files, root, chain) && chain[|chain| - 1] == path
  }

  lemma ChainGrows(files: Files, root: Path, chain: seq<Path>, next: Path)
    requires Chain(files, root, chain) && Includes(files, chain[|chain| - 1], next)
    ensures Chain(files, root, chain + [next])
  {
    var longer := chain + [next];
    forall i | 0 <= i < |longer| - 1
      ensures Includes(files, longer[i], longer[i + 1])
    {
    }
  }

  lemma {:induction false} TextFault(files: Files, root: Path, stack: seq<Path>, path: Path, n: nat)
    requires stack != [] && stack[|stack| - 1] == path && Chain(files, root, stack)
    requires path in files && n <= |files[path]|
    ensures FaultIsReal(files, root, ExpandText(files, files[path], n, stack))
    decreases Remaining(files, stack), n
  {
    hide Chain, Includes, FaultIsReal, ExpandText, ExpandFile;
    if n > 0 {
      TextFault(files, root, stack, path, n - 1);
      var line := files[path][n - 1];
      if line.IncludeLine? {
        IsIncluded(files, path, n - 1);
        ChainGrows(files, root, stack, line.target);
        if line.target !in stack && line.target in files {
          RemainingShrinks(files, stack, line.target);
          TextFault(files, root, stack + [line.target], line.target, |files[line.target]|);
        }
        FileFault(files, root, stack, line.target);
      }
    }
    LineFault(files, root, stack, path, n);
  }

  /** A file that is open already or cannot be read. */
  lemma FileFault(files: Files, root: Path, stack: seq<Path>, target: Path)
    requires Chain(files, root, stack + [target])
    requires target !in stack && target in files ==>
               FaultIsReal(files, root, ExpandText(files, files[target], |files[target]|, stack + [target]))
    ensures FaultIsReal(files, root, ExpandFile(files, target, stack))
  {
    hide Chain, ExpandText;
    var chain := stack + [target];
    assert chain[..|chain| - 1] == stack && chain[|chain| - 1] == target;
  }

  lemma LineFault(files: Files, root: Path, stack: seq<Path>, path: Path, n: nat)
    requires path in files && n <= |files[path]|
    requires n > 0 ==>
               && FaultIsReal(files, root, ExpandText(files, files[path], n - 1, stack))
               && (files[path][n - 1].IncludeLine? ==>
                     FaultIsReal(files, root, ExpandFile(files, files[path][n - 1].target, stack)))
    ensures FaultIsReal(files, root, ExpandText(files, files[path], n, stack))
  {
    hide ExpandFile, Chain;
  }

  lemma IsIncluded(files: Files, path: Path, k: nat)
    requires path in files && k < |files[path]| && files[path][k].IncludeLine?
    ensures Includes(files, path, files[path][k].target)
  {
  }

  /** Every fault an expansion reports is one of the files. */
  lemma ReportedFaultIsReal(files: Files, root: Path)
    ensures FaultIsReal(files, root, ExpandFile(files, root, []))
  {
    hide ExpandText, ExpandFile, FaultIsReal;
    assert [] + [root] == [root];
    assert Chain(files, root, [root]);
    if root in files {
      RemainingShrinks(files, [], root);
      TextFault(files, root, [root], root, |files[root]|);
    }
    FileFault(files, root, [], root);
  }
}
