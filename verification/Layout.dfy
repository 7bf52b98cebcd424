/** Exactly which sources assemble: those that have a layout, a location for every
    line that the statements, the labels and the program memory allow. */
module Layout {
  import opened Arithmetic
  import opened Isa
  import opened Expressions
  import opened Encoder
  import opened Assembler
  import opened TwoPass
  import RoundTrip

  /** How many words a statement puts into the image. */
  function Size(s: Statement): nat
  {
    match s
    case WordData(values) => |values|
    case Instr(m, _) => if IsTwoWord(m) then 2 else 1
    case _ => 0
  }

  predicate Occupies(s: Statement, at: int, a: int)
  {
    at <= a < at + Size(s)
  }

  predicate HasWord(o: Operand, symbols: Symbols, at: int)
  {
    var v := Evaluate(ExprOf(o), symbols, at);
    v.Some? && 0 <= v.value <= 0xFFFF
  }

  /** A statement at one location, with the next one at another. An `.ORG` sees
      only the labels known so far; everything else sees all labels. */
  predicate LineFits(s: Statement, known: Symbols, all: Symbols, at: int, next: int)
  {
    match s
    case Blank => next == at
    case Org(e) => Evaluate(e, known, at) == Some(next) && 0 <= next < 4096
    case WordData(values) =>
      && |values| > 0 && next == at + |values| <= 4096
      && forall j :: 0 <= j < |values| ==> HasWord(values[j], all, at + j)
    case Instr(m, operands) =>
      next == at + (if IsTwoWord(m) then 2 else 1) <= 4096 && Denoted(m, operands, all, at).Some?
    case Unknown => false
  }

  /** The labels of the first n lines, each at the location of its line. */
  function LabelsOf(lines: seq<Line>, at: seq<int>, n: nat): Symbols
    requires n <= |lines| && n <= |at|
  {
    if n == 0 then map[]
    else
      var before := LabelsOf(lines, at, n - 1);
      if lines[n - 1].name.Some? then before[Upper(lines[n - 1].name.value) := at[n - 1]] else before
  }

  predicate LabelsDistinct(lines: seq<Line>)
  {
    forall j, k :: 0 <= j < k < |lines| && lines[j].name.Some? && lines[k].name.Some? ==>
      Upper(lines[j].name.value) != Upper(lines[k].name.value)
  }

  predicate Apart(lines: seq<Line>, at: seq<int>)
    requires |at| == |lines| + 1
  {
    forall j, k :: 0 <= j < k < |lines| ==> LinesApart(lines, at, j, k)
  }

  /** Two lines share no address. */
  predicate LinesApart(lines: seq<Line>, at: seq<int>, j: nat, k: nat)
    requires j < k < |lines| && |at| == |lines| + 1
  {
    || Size(lines[j].statement) == 0 || Size(lines[k].statement) == 0
    || at[j] + Size(lines[j].statement) <= at[k] || at[k] + Size(lines[k].statement) <= at[j]
  }

  predicate Fitting(lines: seq<Line>, at: seq<int>)
    requires |at| == |lines| + 1
  {
    forall k :: 0 <= k < |lines| ==> FitsAt(lines, at, k)
  }

  predicate FitsAt(lines: seq<Line>, at: seq<int>, k: nat)
    requires |at| == |lines| + 1 && k < |lines|
  {
    LineFits(lines[k].statement, LabelsOf(lines, at, k + 1), LabelsOf(lines, at, |lines|), at[k], at[k + 1])
  }

  /** A location for every line, and one for the end. */
  predicate IsLayout(lines: seq<Line>, at: seq<int>)
  {
    && |at| == |lines| + 1 && at[0] == 0
    && LabelsDistinct(lines) && Fitting(lines, at) && Apart(lines, at)
  }

  // ------------------------------------------------------------ the labels

  lemma {:induction false} LabelKeys(lines: seq<Line>, at: seq<int>, n: nat, name: string)
    requires n <= |lines| && n <= |at|
    ensures name in LabelsOf(lines, at, n) <==>
              exists k :: 0 <= k < n && lines[k].name.Some? && Upper(lines[k].name.value) == name
  {
    hide Upper;
    if n > 0 { LabelKeys(lines, at, n - 1, name); }
  }

  lemma {:induction false} LabelsGrow(lines: seq<Line>, at: seq<int>, n: nat, m: nat)
    requires n <= m <= |lines| && m <= |at| && LabelsDistinct(lines)
    ensures Extends(LabelsOf(lines, at, m), LabelsOf(lines, at, n))
    decreases m
  {
    hide Upper;
    if n < m {
      LabelsGrow(lines, at, n, m - 1);
      if lines[m - 1].name.Some? { LabelKeys(lines, at, m - 1, Upper(lines[m - 1].name.value)); }
    }
  }

  // --------------------------------------------------- a layout is assembled

  lemma {:induction false} NeverNegative(lines: seq<Line>, at: seq<int>, n: nat)
    requires |at| == |lines| + 1 && at[0] == 0 && Fitting(lines, at) && n <= |lines|
    ensures at[n] >= 0
  {
    hide Evaluate, Denoted, HasWord, LabelsOf;
    if n > 0 {
      NeverNegative(lines, at, n - 1);
      assert FitsAt(lines, at, n - 1);
    }
  }

  lemma NoMissing(values: seq<Operand>, all: Symbols, at: int)
    requires |values| > 0 && forall j :: 0 <= j < |values| ==> HasWord(values[j], all, at + j)
    ensures !MissesOperand(values)
  {
    forall j | 0 <= j < |values|
      ensures values[j] != Missing
    {
      assert HasWord(values[j], all, at + j);
    }
  }

  lemma FirstFits(s: Statement, known: Symbols, all: Symbols, at: int, next: int)
    requires at >= 0 && LineFits(s, known, all, at, next)
    ensures NextLocation(s, known, at) == Ok(next)
  {
    hide Evaluate, HasWord, MissesOperand, WordCount, ShapeFault;
    match s
    case WordData(values) => NoMissing(values, all, at);
    case Instr(m, operands) =>
      RoundTrip.CountIsChunk(m);
      DenotedShape(m, operands, all, at);
    case _ =>
  }

  lemma DenotedShape(m: Mnemonic, operands: seq<Operand>, symbols: Symbols, at: int)
    requires Denoted(m, operands, symbols, at).Some?
    ensures ShapeFault(m, operands).None?
    ensures IsTwoWord(m) ==>
              && operands != [] && Value(operands[0], symbols, at).Ok?
              && 0 <= Value(operands[0], symbols, at).value < 4096
  {
    hide Value, AddressDenoted, OptionalShift, IoPort, AuxiliaryRegister, RegisterOrValue;
  }

  lemma {:induction false} FirstFollows(lines: seq<Line>, at: seq<int>, n: nat)
    requires IsLayout(lines, at) && n <= |lines|
    ensures FirstPass(lines, n) == Reached(First(LabelsOf(lines, at, n), at[n]))
  {
    hide LineFits, NextLocation, Upper, Apart;
    if n > 0 {
      FirstFollows(lines, at, n - 1);
      var line := lines[n - 1];
      if line.name.Some? { LabelKeys(lines, at, n - 1, Upper(line.name.value)); }
      NeverNegative(lines, at, n - 1);
      assert FitsAt(lines, at, n - 1);
      FirstFits(line.statement, LabelsOf(lines, at, n), LabelsOf(lines, at, |lines|), at[n - 1], at[n]);
    }
  }

  /** The addresses of the image after a line: those before it and its own. */
  ghost predicate Adds(before: map<int, int>, after: map<int, int>, s: Statement, at: int)
  {
    forall a :: a in after <==> a in before || Occupies(s, at, a)
  }

  ghost predicate Free(words: map<int, int>, s: Statement, at: int)
  {
    forall a :: Occupies(s, at, a) ==> a !in words
  }

  lemma {:induction false} ValuesAre(operands: seq<Operand>, k: nat, all: Symbols, at: int)
    requires k <= |operands| && forall j :: 0 <= j < |operands| ==> HasWord(operands[j], all, at + j)
    ensures ValuesOf(operands, k, all, at).Ok? && |ValuesOf(operands, k, all, at).value| == k
    ensures forall j :: 0 <= j < k ==> IsWord(ValuesOf(operands, k, all, at).value[j])
  {
    hide Evaluate;
    if k > 0 { ValuesAre(operands, k - 1, all, at); }
  }

  lemma {:induction false} WordsEmitted(st: Second, values: seq<int>, k: nat, line: nat)
    requires k <= |values| && 0 <= st.location && st.location + |values| <= 4096
    requires forall j :: 0 <= j < |values| ==> IsWord(values[j])
    requires forall a :: st.location <= a < st.location + |values| ==> a !in st.words
    ensures EmitWords(st, values, k, line).Ok?
    ensures var next := EmitWords(st, values, k, line).value;
            && next.location == st.location + k
            && forall a :: a in next.words <==> a in st.words || st.location <= a < st.location + k
  {
    if k > 0 { WordsEmitted(st, values, k - 1, line); }
  }

  lemma DataEmitted(st: Second, values: seq<Operand>, known: Symbols, all: Symbols, next: int, n: nat)
    requires 0 <= st.location && Free(st.words, WordData(values), st.location)
    requires LineFits(WordData(values), known, all, st.location, next)
    ensures var r := EmitData(st, values, all, n);
            && r.Ok? && r.value.location == next
            && Adds(st.words, r.value.words, WordData(values), st.location)
  {
    hide HasWord, EmitWords, ValuesOf, MissesOperand;
    NoMissing(values, all, st.location);
    ValuesAre(values, |values|, all, st.location);
    var words := ValuesOf(values, |values|, all, st.location).value;
    assert forall a :: st.location <= a < st.location + |values| ==> Occupies(WordData(values), st.location, a);
    WordsEmitted(st, words, |words|, n);
  }

  lemma InstructionEmitted(st: Second, m: Mnemonic, operands: seq<Operand>, all: Symbols, n: nat)
    requires 0 <= st.location && Free(st.words, Instr(m, operands), st.location)
    requires st.location + Size(Instr(m, operands)) <= 4096 && Denoted(m, operands, all, st.location).Some?
    ensures var r := EmitInstruction(st, m, operands, all, n);
            && r.Ok? && r.value.location == st.location + Size(Instr(m, operands))
            && Adds(st.words, r.value.words, Instr(m, operands), st.location)
  {
    hide Encode, Denoted, Value;
    EncodeIsDenoted(m, operands, all, st.location);
    DenotedShape(m, operands, all, st.location);
    assert Occupies(Instr(m, operands), st.location, st.location);
    if IsTwoWord(m) { assert Occupies(Instr(m, operands), st.location, st.location + 1); }
  }

  lemma LineEmitted(st: Second, s: Statement, known: Symbols, all: Symbols, next: int, n: nat)
    requires 0 <= st.location && Extends(all, known) && Free(st.words, s, st.location)
    requires LineFits(s, known, all, st.location, next)
    ensures var r := SecondLine(st, s, all, n);
            r.Ok? && r.value.location == next && Adds(st.words, r.value.words, s, st.location)
  {
    hide Evaluate, HasWord, EmitData, EmitInstruction, Denoted;
    match s
    case Org(e) => EvaluateMonotone(e, known, all, st.location);
    case WordData(values) => DataEmitted(st, values, known, all, next, n);
    case Instr(m, operands) => InstructionEmitted(st, m, operands, all, n);
    case _ =>
  }

  ghost predicate Placed(lines: seq<Line>, at: seq<int>, n: nat, a: int)
    requires |at| == |lines| + 1 && n <= |lines|
  {
    exists k :: 0 <= k < n && Occupies(lines[k].statement, at[k], a)
  }

  lemma {:induction false} SecondFollows(lines: seq<Line>, at: seq<int>, n: nat)
    requires IsLayout(lines, at) && n <= |lines|
    ensures SecondPass(lines, LabelsOf(lines, at, |lines|), n).Reached?
    ensures SecondPass(lines, LabelsOf(lines, at, |lines|), n).state.location == at[n]
    ensures forall a :: a in SecondPass(lines, LabelsOf(lines, at, |lines|), n).state.words
                   <==> Placed(lines, at, n, a)
  {
    hide LineFits, SecondLine, LabelsOf, LabelsDistinct, Size;
    var all := LabelsOf(lines, at, |lines|);
    if n > 0 {
      SecondFollows(lines, at, n - 1);
      var st, s := SecondPass(lines, all, n - 1).state, lines[n - 1].statement;
      NeverNegative(lines, at, n - 1);
      LabelsGrow(lines, at, n, |lines|);
      assert FitsAt(lines, at, n - 1);
      StillFree(lines, at, n - 1, st.words);
      LineEmitted(st, s, LabelsOf(lines, at, n), all, at[n], n - 1);
      PlacedMore(lines, at, n - 1);
    }
  }

  lemma StillFree(lines: seq<Line>, at: seq<int>, n: nat, words: map<int, int>)
    requires |at| == |lines| + 1 && n < |lines| && Apart(lines, at)
    requires forall a :: a in words <==> Placed(lines, at, n, a)
    ensures Free(words, lines[n].statement, at[n])
  {
    hide Size;
    forall a | Occupies(lines[n].statement, at[n], a)
      ensures a !in words
    {
      forall k | 0 <= k < n
        ensures !Occupies(lines[k].statement, at[k], a)
      {
        assert LinesApart(lines, at, k, n);
      }
    }
  }

  lemma PlacedMore(lines: seq<Line>, at: seq<int>, n: nat)
    requires |at| == |lines| + 1 && n < |lines|
    ensures forall a :: Placed(lines, at, n + 1, a)
                   <==> Placed(lines, at, n, a) || Occupies(lines[n].statement, at[n], a)
  {
    hide Occupies;
  }

  lemma LayoutAssembles(lines: seq<Line>, at: seq<int>)
    requires IsLayout(lines, at)
    ensures |at| == |lines| + 1
    ensures Passes(lines).Assembled? && Passes(lines).assembly.symbols == LabelsOf(lines, at, |lines|)
    ensures forall k :: 0 <= k <= |lines| ==> SecondAt(lines, k).location == at[k]
    ensures forall a :: a in Passes(lines).assembly.words <==> Placed(lines, at, |lines|, a)
  {
    hide FirstPass, SecondPass, IsLayout, Placed, LabelsOf;
    LayoutLength(lines, at);
    FirstFollows(lines, at, |lines|);
    SecondFollows(lines, at, |lines|);
    forall k | 0 <= k <= |lines|
      ensures SecondAt(lines, k).location == at[k]
    {
      SecondFollows(lines, at, k);
    }
  }

  // ------------------------------------------ an assembled source has a layout

  function Locations(lines: seq<Line>): seq<int>
    requires Passes(lines).Assembled?
  {
    seq(|lines| + 1, k requires 0 <= k <= |lines| => SecondAt(lines, k).location)
  }

  /** Where each statement of an assembled source leaves the next one. */
  lemma LocationMoves(lines: seq<Line>, k: nat)
    requires Passes(lines).Assembled? && k < |lines|
    ensures SecondAt(lines, 0).location == 0
    ensures LineFits(lines[k].statement, FirstAt(lines, k + 1).symbols, SymbolsOf(lines),
                     SecondAt(lines, k).location, SecondAt(lines, k + 1).location)
  {
    hide FirstAt, SecondAt, FirstLine, SecondLine, Passes, Extends, LineFits;
    Ends(lines);
    NextLine(lines, k);
    PassesAgree(lines, k);
    PassesAgree(lines, k + 1);
    LineNeeds(FirstAt(lines, k), SecondAt(lines, k), lines[k], SymbolsOf(lines), k);
  }

  lemma LineNeeds(first: First, second: Second, line: Line, all: Symbols, n: nat)
    requires first.location == second.location && FirstLine(first, line).Ok?
    requires SecondLine(second, line.statement, all, n).Ok?
    requires SecondLine(second, line.statement, all, n).value.location == FirstLine(first, line).value.location
    ensures LineFits(line.statement, FirstLine(first, line).value.symbols, all,
                     second.location, FirstLine(first, line).value.location)
  {
    hide Evaluate, HasWord, EmitData, EmitInstruction, Denoted, WordCount, ShapeFault, MissesOperand;
    match line.statement
    case WordData(values) => DataNeeds(second, values, all, n);
    case Instr(m, operands) =>
      RoundTrip.CountIsChunk(m);
      InstructionNeeds(second, m, operands, all, n);
    case _ =>
  }

  lemma DataNeeds(st: Second, values: seq<Operand>, all: Symbols, n: nat)
    requires EmitData(st, values, all, n).Ok?
    ensures |values| > 0 && forall j :: 0 <= j < |values| ==> HasWord(values[j], all, st.location + j)
  {
    hide Evaluate, EmitWords;
    ValuesLength(values, |values|, all, st.location);
    var words := ValuesOf(values, |values|, all, st.location).value;
    EmittedAreWords(st, words, |words|, n);
    forall j | 0 <= j < |values|
      ensures HasWord(values[j], all, st.location + j)
    {
      assert Value(values[j], all, st.location + j) == Ok(words[j]);
    }
  }

  lemma {:induction false} EmittedAreWords(st: Second, values: seq<int>, k: nat, line: nat)
    requires k <= |values| && EmitWords(st, values, k, line).Ok?
    ensures forall j :: 0 <= j < k ==> IsWord(values[j])
    ensures forall a :: st.location <= a < st.location + k ==> a !in st.words
    ensures forall a :: a in EmitWords(st, values, k, line).value.words
                   <==> a in st.words || st.location <= a < st.location + k
    ensures EmitWords(st, values, k, line).value.location == st.location + k
  {
    if k > 0 { EmittedAreWords(st, values, k - 1, line); }
  }

  lemma InstructionNeeds(st: Second, m: Mnemonic, operands: seq<Operand>, all: Symbols, n: nat)
    requires EmitInstruction(st, m, operands, all, n).Ok?
    ensures Denoted(m, operands, all, st.location).Some?
  {
    hide Encode, Denoted, Value;
    EncodeIsDenoted(m, operands, all, st.location);
  }

  /** A line of the second pass writes to free addresses. */
  lemma LineFree(st: Second, s: Statement, all: Symbols, n: nat)
    requires SecondLine(st, s, all, n).Ok?
    ensures Free(st.words, s, st.location)
    ensures Adds(st.words, SecondLine(st, s, all, n).value.words, s, st.location)
  {
    hide Encode, Value, CheckedAddress, EmitWords, ValuesOf;
    if s.WordData? {
      ValuesLength(s.values, |s.values|, all, st.location);
      var words := ValuesOf(s.values, |s.values|, all, st.location).value;
      EmittedAreWords(st, words, |words|, n);
    }
  }

  lemma {:induction false} WordsPlaced(lines: seq<Line>, n: nat, k: nat)
    requires Passes(lines).Assembled? && k < n <= |lines|
    ensures forall a :: Occupies(lines[k].statement, SecondAt(lines, k).location, a) ==> a in SecondAt(lines, n).words
    decreases n
  {
    hide SecondAt, FirstAt, SecondLine, FirstLine, Passes, Occupies;
    NextLine(lines, n - 1);
    LineFree(SecondAt(lines, n - 1), lines[n - 1].statement, SymbolsOf(lines), n - 1);
    if k < n - 1 { WordsPlaced(lines, n - 1, k); }
  }

  lemma {:induction false} LabelsAre(lines: seq<Line>, n: nat)
    requires Passes(lines).Assembled? && n <= |lines|
    ensures LabelsOf(lines, Locations(lines), n) == FirstAt(lines, n).symbols
  {
    hide SecondAt, FirstAt, SecondLine, Passes, NextLocation, Upper;
    if n > 0 {
      LabelsAre(lines, n - 1);
      NextLine(lines, n - 1);
      PassesAgree(lines, n - 1);
    } else {
      Ends(lines);
    }
  }

  lemma AssembledLabels(lines: seq<Line>)
    requires Passes(lines).Assembled?
    ensures LabelsDistinct(lines)
  {
    hide FirstAt, Passes, Upper;
    forall j, k | 0 <= j < k < |lines| && lines[j].name.Some? && lines[k].name.Some?
      ensures Upper(lines[j].name.value) != Upper(lines[k].name.value)
    {
      var name := Upper(lines[j].name.value);
      SymbolsAreLabels(lines, |lines|, name);
      assert Labels(lines, j, name) ==> !Labels(lines, k, name);
    }
  }

  lemma AssembledHasLayout(lines: seq<Line>)
    requires Passes(lines).Assembled?
    ensures IsLayout(lines, Locations(lines))
  {
    hide SecondAt, FirstAt, Passes, LineFits, LabelsDistinct, LabelsOf, SecondLine, FirstLine;
    var at := Locations(lines);
    AssembledLabels(lines);
    Ends(lines);
    LabelsAre(lines, |lines|);
    forall k | 0 <= k < |lines|
      ensures FitsAt(lines, at, k)
    {
      LocationMoves(lines, k);
      LabelsAre(lines, k + 1);
    }
    forall j, k | 0 <= j < k < |lines|
      ensures LinesApart(lines, at, j, k)
    {
      AssembledApart(lines, j, k);
    }
  }

  lemma AssembledApart(lines: seq<Line>, j: nat, k: nat)
    requires Passes(lines).Assembled? && j < k < |lines|
    ensures LinesApart(lines, Locations(lines), j, k)
  {
    hide SecondAt, FirstAt, Passes, SecondLine, FirstLine, Size;
    WordsPlaced(lines, k, j);
    NextLine(lines, k);
    LineFree(SecondAt(lines, k), lines[k].statement, SymbolsOf(lines), k);
    var a, b := SecondAt(lines, j).location, SecondAt(lines, k).location;
    var high := if a <= b then b else a;
    if Size(lines[j].statement) > 0 && Size(lines[k].statement) > 0 {
      assert Occupies(lines[j].statement, a, high) && Occupies(lines[k].statement, b, high) ==> false;
    }
  }

  /** A source assembles if and only if it has a layout. The layout is then the
      one the passes follow: the labels stand for its locations and the image
      occupies exactly the addresses it gives the lines. */
  lemma AssemblesExactly(lines: seq<Line>)
    ensures Passes(lines).Assembled? <==> exists at :: IsLayout(lines, at)
    ensures forall at :: IsLayout(lines, at) ==>
              && at == Locations(lines)
              && SymbolsOf(lines) == LabelsOf(lines, at, |lines|)
              && forall a :: a in Passes(lines).assembly.words <==> Placed(lines, at, |lines|, a)
  {
    hide Passes, IsLayout, Placed, LabelsOf, SecondAt;
    if Passes(lines).Assembled? { AssembledHasLayout(lines); }
    forall at | IsLayout(lines, at)
      ensures Passes(lines).Assembled? && at == Locations(lines)
      ensures SymbolsOf(lines) == LabelsOf(lines, at, |lines|)
      ensures forall a :: a in Passes(lines).assembly.words <==> Placed(lines, at, |lines|, a)
    {
      LayoutAssembles(lines, at);
    }
  }

  lemma LayoutLength(lines: seq<Line>, at: seq<int>)
    requires IsLayout(lines, at)
    ensures |at| == |lines| + 1
  {
  }

  // ------------------------------------------------------------- the listing

  /** A row stands for a word of its own line. */
  predicate OwnRow(lines: seq<Line>, at: seq<int>, r: Row)
  {
    0 <= r.line < |lines| && r.line < |at| && Occupies(lines[r.line].statement, at[r.line], r.address)
  }

  /** The rows of a pass over the first n lines: each of its own line, the lines in
      order, and the addresses of one line one after the other. */
  ghost predicate RowsInOrder(lines: seq<Line>, at: seq<int>, listing: seq<Row>, n: nat)
  {
    && (forall i :: 0 <= i < |listing| ==> OwnRow(lines, at, listing[i]) && listing[i].line < n)
    && (forall i :: 0 < i < |listing| ==>
          || listing[i - 1].line < listing[i].line
          || (listing[i - 1].line == listing[i].line && listing[i].address == listing[i - 1].address + 1))
  }

  /** Rows of one line appended to a listing. */
  ghost predicate RowsAdded(before: seq<Row>, after: seq<Row>, at: int, size: nat, n: nat)
  {
    && |after| == |before| + size && after[..|before|] == before
    && forall i :: |before| <= i < |after| ==> after[i].line == n && after[i].address == at + (i - |before|)
  }

  lemma {:induction false} WordsListed(st: Second, values: seq<int>, k: nat, n: nat)
    requires k <= |values| && EmitWords(st, values, k, n).Ok?
    ensures EmitWords(st, values, k, n).value.location == st.location + k
    ensures RowsAdded(st.listing, EmitWords(st, values, k, n).value.listing, st.location, k, n)
  {
    if k > 0 { WordsListed(st, values, k - 1, n); }
  }

  lemma LineListed(st: Second, s: Statement, all: Symbols, n: nat)
    requires SecondLine(st, s, all, n).Ok?
    ensures RowsAdded(st.listing, SecondLine(st, s, all, n).value.listing, st.location, Size(s), n)
  {
    hide Encode, Value, CheckedAddress, EmitWords, ValuesOf;
    if s.WordData? {
      ValuesLength(s.values, |s.values|, all, st.location);
      var words := ValuesOf(s.values, |s.values|, all, st.location).value;
      WordsListed(st, words, |words|, n);
    }
  }

  lemma MoreRows(lines: seq<Line>, at: seq<int>, before: seq<Row>, after: seq<Row>, n: nat)
    requires n < |lines| && |at| == |lines| + 1 && RowsInOrder(lines, at, before, n)
    requires RowsAdded(before, after, at[n], Size(lines[n].statement), n)
    ensures RowsInOrder(lines, at, after, n + 1)
  {
    hide Size;
    forall i | 0 <= i < |after|
      ensures OwnRow(lines, at, after[i]) && after[i].line <= n
      ensures i < |before| ==> after[i] == before[i]
      ensures i >= |before| ==> after[i].line == n && after[i].address == at[n] + (i - |before|)
    {
      if i < |before| { assert after[i] == after[..|before|][i]; }
    }
  }

  lemma {:induction false} ListingSoFar(lines: seq<Line>, n: nat)
    requires Passes(lines).Assembled? && n <= |lines|
    ensures RowsInOrder(lines, Locations(lines), SecondAt(lines, n).listing, n)
  {
    hide SecondAt, FirstAt, Passes, SecondLine, FirstLine, RowsInOrder, RowsAdded;
    Ends(lines);
    if n > 0 {
      ListingSoFar(lines, n - 1);
      NextLine(lines, n - 1);
      LineListed(SecondAt(lines, n - 1), lines[n - 1].statement, SymbolsOf(lines), n - 1);
      MoreRows(lines, Locations(lines), SecondAt(lines, n - 1).listing, SecondAt(lines, n).listing, n - 1);
    } else {
      NoRows(lines);
    }
  }

  lemma NoRows(lines: seq<Line>)
    requires Passes(lines).Assembled?
    ensures RowsInOrder(lines, Locations(lines), [], 0)
  {
  }

  /** The listing shows the words in the order of the lines, each with the number
      of the line it comes from. */
  lemma ListingInOrder(lines: seq<Line>)
    requires Passes(lines).Assembled?
    ensures RowsInOrder(lines, Locations(lines), Passes(lines).assembly.listing, |lines|)
  {
    hide SecondAt, Passes, RowsInOrder;
    Ends(lines);
    ListingSoFar(lines, |lines|);
  }

  // -------------------------------------------------------------- the faults

  /** Why the first pass stops at a line, and in which order the causes count. */
  lemma FirstFaults(st: First, line: Line)
    ensures var r := FirstLine(st, line);
            var known := line.name.Some? && Upper(line.name.value) in st.symbols;
            var symbols := if line.name.Some? then st.symbols[Upper(line.name.value) := st.location] else st.symbols;
            if known then r == Err(DuplicateLabel)
            else match line.statement
            case Blank => r.Ok?
            case Unknown => r == Err(UnknownOperation)
            case Org(e) =>
              var v := Evaluate(e, symbols, st.location);
              && (v.None? <==> r == Err(InvalidExpression))
              && (v.Some? && !(0 <= v.value < 4096) <==> r == Err(AddressOutOfRange))
              && (r.Ok? <==> v.Some? && 0 <= v.value < 4096)
            case WordData(values) =>
              var next := st.location + |values|;
              r == if |values| == 0 || Missing in values then Err(MissingOperand)
                   else if next < 0 || next > 4096 then Err(ProgramTooLong) else Ok(First(symbols, next))
            case Instr(m, operands) =>
              var next := st.location + (if IsTwoWord(m) then 2 else 1);
              r == if ShapeFault(m, operands).Some? then Err(ShapeFault(m, operands).value)
                   else if next < 0 || next > 4096 then Err(ProgramTooLong) else Ok(First(symbols, next))
  {
    hide Evaluate, ShapeFault, WordCount;
    if line.statement.Instr? { RoundTrip.CountIsChunk(line.statement.mnemonic); }
  }

  /** Why a word is not emitted. */
  lemma EmitFaults(st: Second, word: int, n: nat)
    ensures Emit(st, word, n)
         == if st.location < 0 || st.location >= 4096 then Err(AddressOutOfRange)
            else if st.location in st.words then Err(AlreadyOccupied)
            else Ok(Second(st.words[st.location := word], st.listing + [Row(st.location, word, n)], st.location + 1))
  {
  }

  /** A failed assembly names the first line that stops the first pass, or else the
      first that stops the second. */
  lemma FailureIsFirst(lines: seq<Line>)
    requires Passes(lines).Failed?
    ensures var k, fault := Passes(lines).line, Passes(lines).fault;
            && k < |lines|
            && if FirstPass(lines, |lines|).Stopped?
               then FirstPass(lines, k).Reached? && FirstLine(FirstPass(lines, k).state, lines[k]) == Err(fault)
               else var symbols := FirstPass(lines, |lines|).state.symbols;
                    && SecondPass(lines, symbols, k).Reached?
                    && SecondLine(SecondPass(lines, symbols, k).state, lines[k].statement, symbols, k) == Err(fault)
  {
    hide FirstLine, SecondLine;
    if FirstPass(lines, |lines|).Stopped? {
      FirstStopsAt(lines, |lines|);
    } else {
      SecondStopsAt(lines, FirstPass(lines, |lines|).state.symbols, |lines|);
    }
  }

  lemma {:induction false} FirstStopsAt(lines: seq<Line>, n: nat)
    requires n <= |lines| && FirstPass(lines, n).Stopped?
    ensures var p := FirstPass(lines, n);
            && p.line < n && FirstPass(lines, p.line).Reached?
            && FirstLine(FirstPass(lines, p.line).state, lines[p.line]) == Err(p.fault)
  {
    hide FirstLine;
    if n > 0 && FirstPass(lines, n - 1).Stopped? { FirstStopsAt(lines, n - 1); }
  }

  lemma {:induction false} SecondStopsAt(lines: seq<Line>, symbols: Symbols, n: nat)
    requires n <= |lines| && SecondPass(lines, symbols, n).Stopped?
    ensures var p := SecondPass(lines, symbols, n);
            && p.line < n && SecondPass(lines, symbols, p.line).Reached?
            && SecondLine(SecondPass(lines, symbols, p.line).state, lines[p.line].statement, symbols, p.line)
               == Err(p.fault)
  {
    hide SecondLine;
    if n > 0 && SecondPass(lines, symbols, n - 1).Stopped? { SecondStopsAt(lines, symbols, n - 1); }
  }
}
