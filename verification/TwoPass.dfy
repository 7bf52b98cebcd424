/** What a successful assembly guarantees: the passes agree on every location,
    labels are the locations of their lines, and the image holds each line. */
module TwoPass {
  import opened Arithmetic
  import opened Isa
  import opened Decoder
  import opened Expressions
  import opened Encoder
  import opened Assembler

  // --------------------------------------------------------- both passes run

  /** A successful assembly reached every line in both passes. */
  lemma ReachesAll(lines: seq<Line>, n: nat)
    requires Passes(lines).Assembled? && n <= |lines|
    ensures FirstPass(lines, n).Reached?
    ensures SecondPass(lines, Passes(lines).assembly.symbols, n).Reached?
  {
    hide FirstLine, SecondLine, FirstPass, SecondPass;
    if FirstPass(lines, n).Stopped? { FirstStops(lines, n, |lines|); }
    if SecondPass(lines, Passes(lines).assembly.symbols, n).Stopped? {
      SecondStops(lines, Passes(lines).assembly.symbols, n, |lines|);
    }
  }

  function FirstAt(lines: seq<Line>, n: nat): First
    requires Passes(lines).Assembled? && n <= |lines|
  {
    ReachesAll(lines, n);
    FirstPass(lines, n).state
  }

  function SecondAt(lines: seq<Line>, n: nat): Second
    requires Passes(lines).Assembled? && n <= |lines|
  {
    ReachesAll(lines, n);
    SecondPass(lines, Passes(lines).assembly.symbols, n).state
  }

  function SymbolsOf(lines: seq<Line>): Symbols
    requires Passes(lines).Assembled?
  {
    Passes(lines).assembly.symbols
  }

  /** Both passes over one more line. */
  lemma NextLine(lines: seq<Line>, n: nat)
    requires Passes(lines).Assembled? && n < |lines|
    ensures FirstLine(FirstAt(lines, n), lines[n]) == Ok(FirstAt(lines, n + 1))
    ensures SecondLine(SecondAt(lines, n), lines[n].statement, SymbolsOf(lines), n) == Ok(SecondAt(lines, n + 1))
  {
    hide FirstLine, SecondLine, Passes;
    ReachesAll(lines, n);
    ReachesAll(lines, n + 1);
  }

  lemma Ends(lines: seq<Line>)
    requires Passes(lines).Assembled?
    ensures FirstAt(lines, |lines|).symbols == SymbolsOf(lines)
    ensures SecondAt(lines, |lines|).words == Passes(lines).assembly.words
    ensures SecondAt(lines, |lines|).listing == Passes(lines).assembly.listing
    ensures FirstAt(lines, 0) == First(map[], 0) && SecondAt(lines, 0) == Second(map[], [], 0)
  {
    hide FirstLine, SecondLine;
  }

  // ------------------------------------------------------------- the symbols

  lemma FirstLineExtends(st: First, line: Line)
    requires FirstLine(st, line).Ok?
    ensures Extends(FirstLine(st, line).value.symbols, st.symbols)
  {
    hide NextLocation;
  }

  lemma {:induction false} SymbolsGrow(lines: seq<Line>, n: nat, m: nat)
    requires Passes(lines).Assembled? && n <= m <= |lines|
    ensures Extends(FirstAt(lines, m).symbols, FirstAt(lines, n).symbols)
    decreases m
  {
    hide FirstAt, FirstLine, Passes;
    if n < m {
      SymbolsGrow(lines, n, m - 1);
      NextLine(lines, m - 1);
      FirstLineExtends(FirstAt(lines, m - 1), lines[m - 1]);
    }
  }

  // ---------------------------------------------------------- locations agree

  lemma {:induction false} ValuesLength(operands: seq<Operand>, k: nat, symbols: Symbols, location: int)
    requires k <= |operands| && ValuesOf(operands, k, symbols, location).Ok?
    ensures |ValuesOf(operands, k, symbols, location).value| == k
    ensures forall j :: 0 <= j < k ==>
              Value(operands[j], symbols, location + j) == Ok(ValuesOf(operands, k, symbols, location).value[j])
  {
    hide Value;
    if k > 0 { ValuesLength(operands, k - 1, symbols, location); }
  }

  lemma {:induction false} EmitWordsMoves(st: Second, values: seq<int>, k: nat, line: nat)
    requires k <= |values| && EmitWords(st, values, k, line).Ok?
    ensures EmitWords(st, values, k, line).value.location == st.location + k
  {
    if k > 0 { EmitWordsMoves(st, values, k - 1, line); }
  }

  lemma CheckedAddressMonotone(e: Expr, fewer: Symbols, more: Symbols, location: int)
    requires Extends(more, fewer) && CheckedAddress(e, fewer, location).Ok?
    ensures CheckedAddress(e, more, location) == CheckedAddress(e, fewer, location)
  {
    hide Evaluate, Extends;
    EvaluateMonotone(e, fewer, more, location);
  }

  lemma LineAgrees(first: First, second: Second, line: Line, symbols: Symbols, n: nat)
    requires first.location == second.location
    requires FirstLine(first, line).Ok? && Extends(symbols, FirstLine(first, line).value.symbols)
    requires SecondLine(second, line.statement, symbols, n).Ok?
    ensures SecondLine(second, line.statement, symbols, n).value.location == FirstLine(first, line).value.location
  {
    hide Value, Encode, CheckedAddress, Extends, ShapeFault;
    var now := FirstLine(first, line).value.symbols;
    match line.statement
    case Org(e) =>
      CheckedAddressMonotone(e, now, symbols, first.location);
    case WordData(operands) =>
      ValuesLength(operands, |operands|, symbols, second.location);
      var values := ValuesOf(operands, |operands|, symbols, second.location).value;
      EmitWordsMoves(second, values, |values|, n);
    case _ =>
  }

  /** Two-pass agreement: at every line of a successful assembly the second pass
      stands where the first pass stood, whatever the ORG expressions use. */
  lemma {:induction false} PassesAgree(lines: seq<Line>, n: nat)
    requires Passes(lines).Assembled? && n <= |lines|
    ensures SecondAt(lines, n).location == FirstAt(lines, n).location
  {
    hide FirstAt, SecondAt, FirstLine, SecondLine, Passes, Extends;
    if n > 0 {
      PassesAgree(lines, n - 1);
      NextLine(lines, n - 1);
      SymbolsGrow(lines, n, |lines|);
      Ends(lines);
      LineAgrees(FirstAt(lines, n - 1), SecondAt(lines, n - 1), lines[n - 1], SymbolsOf(lines), n - 1);
    } else {
      Ends(lines);
    }
  }

  /** The value of a label is the location of its own line in the pass that
      emits words. */
  lemma LabelIsLocation(lines: seq<Line>, k: nat)
    requires Passes(lines).Assembled? && k < |lines| && lines[k].name.Some?
    ensures var name := Upper(lines[k].name.value);
            name in SymbolsOf(lines) && SymbolsOf(lines)[name] == SecondAt(lines, k).location
  {
    hide FirstAt, SecondAt, SecondLine, Passes, NextLocation;
    NextLine(lines, k);
    SymbolsGrow(lines, k + 1, |lines|);
    Ends(lines);
    PassesAgree(lines, k);
  }

  predicate Labels(lines: seq<Line>, k: nat, name: string)
    requires k < |lines|
  {
    lines[k].name.Some? && Upper(lines[k].name.value) == name
  }

  /** Every symbol is the label of exactly one line. */
  lemma {:induction false} SymbolsAreLabels(lines: seq<Line>, n: nat, name: string)
    requires Passes(lines).Assembled? && n <= |lines|
    ensures name in FirstAt(lines, n).symbols <==> exists k :: 0 <= k < n && Labels(lines, k, name)
    ensures forall j, k :: 0 <= j < k < n && Labels(lines, j, name) ==> !Labels(lines, k, name)
  {
    hide FirstAt, Passes, NextLocation;
    if n > 0 {
      SymbolsAreLabels(lines, n - 1, name);
      NextLine(lines, n - 1);
      if Labels(lines, n - 1, name) {
        assert exists k :: 0 <= k < n && Labels(lines, k, name);
      }
    } else {
      Ends(lines);
    }
  }

  // ----------------------------------------------------------------- the image

  function ImageOf(listing: seq<Row>): map<int, int>
  {
    if listing == [] then map[]
    else
      var last := listing[|listing| - 1];
      ImageOf(listing[..|listing| - 1])[last.address := last.word]
  }

  predicate ProperRow(r: Row)
  {
    0 <= r.address < 4096 && IsWord(r.word)
  }

  /** The words are exactly those of the listing, one row an address. */
  predicate Consistent(st: Second)
  {
    && st.words == ImageOf(st.listing)
    && (forall i :: 0 <= i < |st.listing| ==> ProperRow(st.listing[i]) && st.listing[i].address in st.words)
    && (forall i, j :: 0 <= i < j < |st.listing| ==> st.listing[i].address != st.listing[j].address)
  }

  /** Words that were there stay. */
  predicate Keeps(before: Second, after: Second)
  {
    forall a :: a in before.words ==> a in after.words && after.words[a] == before.words[a]
  }

  lemma EmitConsistent(st: Second, word: int, line: nat)
    requires Consistent(st) && IsWord(word) && Emit(st, word, line).Ok?
    ensures Consistent(Emit(st, word, line).value) && Keeps(st, Emit(st, word, line).value)
    ensures st.location in Emit(st, word, line).value.words
    ensures Emit(st, word, line).value.words[st.location] == word
  {
    var row := Row(st.location, word, line);
    assert (st.listing + [row])[..|st.listing|] == st.listing;
    hide ImageOf;
    ImageSnoc(st.listing, row);
  }

  lemma ImageSnoc(listing: seq<Row>, row: Row)
    ensures ImageOf(listing + [row]) == ImageOf(listing)[row.address := row.word]
  {
    assert (listing + [row])[..|listing|] == listing;
  }

  lemma {:induction false} EmitWordsConsistent(st: Second, values: seq<int>, k: nat, line: nat)
    requires k <= |values| && Consistent(st) && EmitWords(st, values, k, line).Ok?
    ensures Consistent(EmitWords(st, values, k, line).value) && Keeps(st, EmitWords(st, values, k, line).value)
    ensures forall j :: 0 <= j < k ==> Holds(EmitWords(st, values, k, line).value, st.location + j, values[j])
  {
    hide Consistent, Emit;
    if k > 0 {
      EmitWordsConsistent(st, values, k - 1, line);
      EmitWordsMoves(st, values, k - 1, line);
      var before := EmitWords(st, values, k - 1, line).value;
      EmitConsistent(before, values[k - 1], line);
    }
  }

  /** An image word. */
  predicate Holds(st: Second, address: int, word: int)
  {
    address in st.words && st.words[address] == word && IsWord(word)
  }

  /** What a line leaves in the image. */
  predicate LineHolds(st: Second, location: int, statement: Statement, symbols: Symbols)
  {
    match statement
    case Instr(m, operands) =>
      var w := Encode(m, operands, symbols, location);
      && w.Ok? && Holds(st, location, w.value)
      && (IsTwoWord(m) ==>
            && operands != []
            && var target := Value(operands[0], symbols, location);
               target.Ok? && 0 <= target.value < 4096 && Holds(st, location + 1, target.value))
    case WordData(operands) =>
      forall j :: 0 <= j < |operands| ==>
        var v := Value(operands[j], symbols, location + j);
        v.Ok? && Holds(st, location + j, v.value)
    case _ => true
  }

  lemma TargetInRange(m: Mnemonic, operands: seq<Operand>, symbols: Symbols, location: int)
    requires IsTwoWord(m) && Encode(m, operands, symbols, location).Ok?
    ensures operands != []
    ensures Value(operands[0], symbols, location).Ok? && 0 <= Value(operands[0], symbols, location).value < 4096
  {
    hide Value, Match;
  }

  lemma InstructionConsistent(st: Second, m: Mnemonic, operands: seq<Operand>, symbols: Symbols, line: nat)
    requires Consistent(st) && EmitInstruction(st, m, operands, symbols, line).Ok?
    ensures var next := EmitInstruction(st, m, operands, symbols, line).value;
            Consistent(next) && Keeps(st, next) && LineHolds(next, st.location, Instr(m, operands), symbols)
  {
    hide Consistent, Value, Encode, Denoted, Decode;
    EncodeThenDecode(m, operands, symbols, st.location);
    var word := Encode(m, operands, symbols, st.location).value;
    EmitConsistent(st, word, line);
    if IsTwoWord(m) {
      TargetInRange(m, operands, symbols, st.location);
      EmitConsistent(Emit(st, word, line).value, Value(operands[0], symbols, st.location).value, line);
    }
  }

  lemma DataConsistent(st: Second, operands: seq<Operand>, symbols: Symbols, line: nat)
    requires Consistent(st) && EmitData(st, operands, symbols, line).Ok?
    ensures var next := EmitData(st, operands, symbols, line).value;
            Consistent(next) && Keeps(st, next) && LineHolds(next, st.location, WordData(operands), symbols)
  {
    hide Consistent, Value, EmitWords, Keeps;
    ValuesLength(operands, |operands|, symbols, st.location);
    var values := ValuesOf(operands, |operands|, symbols, st.location).value;
    EmitWordsConsistent(st, values, |values|, line);
  }

  lemma LineConsistent(st: Second, statement: Statement, symbols: Symbols, n: nat)
    requires Consistent(st) && SecondLine(st, statement, symbols, n).Ok?
    ensures var next := SecondLine(st, statement, symbols, n).value;
            Consistent(next) && Keeps(st, next) && LineHolds(next, st.location, statement, symbols)
  {
    hide EmitData, EmitInstruction, CheckedAddress, LineHolds;
    match statement
    case WordData(operands) => DataConsistent(st, operands, symbols, n);
    case Instr(m, operands) => InstructionConsistent(st, m, operands, symbols, n);
    case _ => NothingHolds(st, statement, symbols, n);
  }

  lemma NothingHolds(st: Second, statement: Statement, symbols: Symbols, n: nat)
    requires !statement.WordData? && !statement.Instr?
    ensures SecondLine(st, statement, symbols, n).Ok? ==>
              LineHolds(SecondLine(st, statement, symbols, n).value, st.location, statement, symbols)
  {
    hide CheckedAddress;
  }

  lemma {:induction false} PassConsistent(lines: seq<Line>, n: nat)
    requires Passes(lines).Assembled? && n <= |lines|
    ensures Consistent(SecondAt(lines, n))
  {
    hide SecondAt, SecondLine, FirstLine, Passes, Keeps, LineHolds, Consistent;
    Ends(lines);
    if n > 0 {
      PassConsistent(lines, n - 1);
      NextLine(lines, n - 1);
      LineConsistent(SecondAt(lines, n - 1), lines[n - 1].statement, SymbolsOf(lines), n - 1);
    } else {
      EmptyConsistent();
    }
  }

  lemma EmptyConsistent()
    ensures Consistent(Second(map[], [], 0))
  {
  }

  lemma {:induction false} WordsKept(lines: seq<Line>, n: nat, m: nat)
    requires Passes(lines).Assembled? && n <= m <= |lines|
    ensures Keeps(SecondAt(lines, n), SecondAt(lines, m))
    decreases m
  {
    hide SecondAt, SecondLine, FirstLine, Passes, Consistent, LineHolds;
    if n < m {
      WordsKept(lines, n, m - 1);
      NextLine(lines, m - 1);
      PassConsistent(lines, m - 1);
      LineConsistent(SecondAt(lines, m - 1), lines[m - 1].statement, SymbolsOf(lines), m - 1);
    }
  }

  lemma KeepsLine(before: Second, after: Second, location: int, statement: Statement, symbols: Symbols)
    requires Keeps(before, after) && LineHolds(before, location, statement, symbols)
    ensures LineHolds(after, location, statement, symbols)
  {
    hide Encode, Value;
    if statement.WordData? {
      forall j | 0 <= j < |statement.values|
        ensures var v := Value(statement.values[j], symbols, location + j);
                v.Ok? && Holds(after, location + j, v.value)
      {
        assert Holds(before, location + j, Value(statement.values[j], symbols, location + j).value);
      }
    }
  }

  /** The whole image of a successful assembly: exactly the words of the listing,
      at distinct program addresses and 16 bits wide, and at the location of
      every line exactly what the line says with all labels known. */
  lemma ImageExact(lines: seq<Line>)
    requires Passes(lines).Assembled?
    ensures var a := Passes(lines).assembly;
            var st := SecondAt(lines, |lines|);
            && a.words == st.words == ImageOf(a.listing) && a.listing == st.listing && Consistent(st)
            && forall k :: 0 <= k < |lines| ==>
                 LineHolds(st, SecondAt(lines, k).location, lines[k].statement, a.symbols)
  {
    hide SecondAt, SecondLine, FirstLine, Keeps, LineHolds, Passes;
    Ends(lines);
    PassConsistent(lines, |lines|);
    forall k | 0 <= k < |lines|
      ensures LineHolds(SecondAt(lines, |lines|), SecondAt(lines, k).location, lines[k].statement, SymbolsOf(lines))
    {
      NextLine(lines, k);
      PassConsistent(lines, k);
      LineConsistent(SecondAt(lines, k), lines[k].statement, SymbolsOf(lines), k);
      WordsKept(lines, k + 1, |lines|);
      KeepsLine(SecondAt(lines, k + 1), SecondAt(lines, |lines|), SecondAt(lines, k).location, lines[k].statement,
                SymbolsOf(lines));
    }
  }
}
