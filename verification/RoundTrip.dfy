/** Assembling what the disassembler prints gives back the words. */
module RoundTrip {
  import opened Bits
  import opened Arithmetic
  import opened Isa
  import opened Decoder
  import opened Semantics
  import opened Expressions
  import opened Encoder
  import opened Assembler
  import opened Disassembler

  // ----------------------------------------------------- one printed statement

  /** The control bits of an indirect operand, read back from the notation. */
  lemma ControlRead(control: int)
    requires 0 <= control < 128 && LegalControl(control)
    ensures And(control, 0x08) != 0 <==> (control / 8) % 2 == 1
    ensures And(control, 1) == control % 2
    ensures control == (match Modifier(control) case Keep => 0 case Increment => 32 case Decrement => 16)
                       + (if (control / 8) % 2 == 1 then 8 else 0) + control % 2
  {
    ControlMasks(control);
    ControlParts(control);
    hide And, LegalControl;
  }

  lemma ControlParts(control: int)
    requires 0 <= control < 128 && LegalControl(control)
    ensures (control / 16) % 4 < 3
    ensures control == (control / 16) % 4 * 16 + (control / 8) % 2 * 8 + control % 2
  {
  }

  /** A printed address denotes the mode and field it was printed from. */
  lemma AddressRead(m: Mnemonic, operands: seq<Operand>, nextArp: nat, indirect: bool, field: int, symbols: Symbols,
      location: int)
    requires operands != [] && LegalAddress(indirect, field) && (m.SST? && !indirect ==> field < 16)
    requires !indirect ==> operands[0] == Decimal(field) && |operands| <= nextArp
    requires indirect ==>
               && operands[0] == Star(Modifier(field))
               && if And(field, 0x08) != 0 then And(field, 1) == 0 && |operands| <= nextArp
                  else |operands| > nextArp && operands[nextArp] == Decimal(And(field, 1))
    ensures AddressDenoted(m, operands, nextArp, symbols, location) == Some((indirect, field))
  {
    hide Bitwise, LegalControl, Modifier;
    if indirect { ControlRead(field); }
  }

  /** The printed form of an instruction denotes that instruction. */
  lemma FormDenotes(i: Instruction, word: int, symbols: Symbols, location: int)
    requires Legal(i) && FormOf(i, word).Instr?
    ensures !IsTwoWord(i.mnemonic) && FormOf(i, word).mnemonic == i.mnemonic
    ensures Denoted(i.mnemonic, FormOf(i, word).operands, symbols, location) == Some(i)
  {
    match ShapeOf(i.mnemonic)
    case PlainData => PlainDenotes(i, word, symbols, location);
    case Shifted => ShiftedDenotes(i, word, symbols, location);
    case WithPort => PortDenotes(i, word, symbols, location);
    case WithRegister => RegisterDenotes(i, word, symbols, location);
    case _ => ConstantDenotes(i, word, symbols, location);
  }

  lemma PlainDenotes(i: Instruction, word: int, symbols: Symbols, location: int)
    requires Legal(i) && FormOf(i, word).Instr? && ShapeOf(i.mnemonic).PlainData?
    ensures FormOf(i, word).mnemonic == i.mnemonic
    ensures Denoted(i.mnemonic, FormOf(i, word).operands, symbols, location) == Some(i)
  {
    hide Bitwise, And, Modifier, LegalControl, AddressDenoted;
    var operands := FormOf(i, word).operands;
    AddressRead(i.mnemonic, operands, if i.mnemonic.SACL? then 2 else 1, i.operands.indirect, i.operands.field,
      symbols, location);
  }

  lemma ShiftedDenotes(i: Instruction, word: int, symbols: Symbols, location: int)
    requires Legal(i) && FormOf(i, word).Instr? && ShapeOf(i.mnemonic).Shifted?
    ensures FormOf(i, word).mnemonic == i.mnemonic
    ensures Denoted(i.mnemonic, FormOf(i, word).operands, symbols, location) == Some(i)
  {
    hide Bitwise, And, Modifier, LegalControl, AddressDenoted;
    var operands := FormOf(i, word).operands;
    AddressRead(i.mnemonic, operands, 2, i.operands.indirect, i.operands.field, symbols, location);
  }

  lemma PortDenotes(i: Instruction, word: int, symbols: Symbols, location: int)
    requires Legal(i) && FormOf(i, word).Instr? && ShapeOf(i.mnemonic).WithPort?
    ensures FormOf(i, word).mnemonic == i.mnemonic
    ensures Denoted(i.mnemonic, FormOf(i, word).operands, symbols, location) == Some(i)
  {
    hide Bitwise, And, Modifier, LegalControl, AddressDenoted;
    var operands := FormOf(i, word).operands;
    AddressRead(i.mnemonic, operands, 2, i.operands.indirect, i.operands.field, symbols, location);
  }

  lemma RegisterDenotes(i: Instruction, word: int, symbols: Symbols, location: int)
    requires Legal(i) && FormOf(i, word).Instr? && ShapeOf(i.mnemonic).WithRegister?
    ensures FormOf(i, word).mnemonic == i.mnemonic
    ensures Denoted(i.mnemonic, FormOf(i, word).operands, symbols, location) == Some(i)
  {
    hide Bitwise, And, Modifier, LegalControl, AddressDenoted;
    var operands := FormOf(i, word).operands;
    AddressRead(i.mnemonic, operands[1..], 1, i.operands.indirect, i.operands.field, symbols, location);
  }

  lemma ConstantDenotes(i: Instruction, word: int, symbols: Symbols, location: int)
    requires Legal(i) && FormOf(i, word).Instr?
    requires !HasAddress(i.operands)
    ensures !IsTwoWord(i.mnemonic) && FormOf(i, word).mnemonic == i.mnemonic
    ensures Denoted(i.mnemonic, FormOf(i, word).operands, symbols, location) == Some(i)
  {
    hide Bitwise, AddressDenoted;
  }

  /** A printed instruction assembles to the word it was printed from. */
  lemma PrintedEncodes(word: int, symbols: Symbols, location: int)
    requires IsWord(word) && DisassembleWord(word).value.Instr?
    ensures var s := DisassembleWord(word).value;
            && !IsTwoWord(s.mnemonic) && ShapeFault(s.mnemonic, s.operands).None?
            && Encode(s.mnemonic, s.operands, symbols, location) == Ok(word)
  {
    hide Decode, FormOf, Word, Denoted, EncodeShaped;
    var d := Decode(word);
    assert Accounts(d, word);
    FormDenotes(d.value, word, symbols, location);
    EncodeIsDenoted(d.value.mnemonic, FormOf(d.value, word).operands, symbols, location);
  }

  // ------------------------------------------------------------- one chunk

  lemma ChunkCases(words: seq<int>, k: nat)
    requires AllWords(words) && k < |words|
    ensures Chunk(words, k).WordData? ==> ChunkLength(words, k) == 1 && Chunk(words, k) == RawWord(words[k])
    ensures Chunk(words, k).WordData? || Chunk(words, k).Instr?
  {
    hide Decode;
    if !PairAt(words, k) { WordOrInstr(words[k]); }
  }

  lemma WordOrInstr(word: int)
    requires IsWord(word)
    ensures DisassembleWord(word).value.WordData? ==> DisassembleWord(word).value == RawWord(word)
    ensures DisassembleWord(word).value.WordData? || DisassembleWord(word).value.Instr?
  {
    hide Decode, Modifier, And;
    assert Accounts(Decode(word), word);
  }

  /** Both passes see a chunk as its words. */
  lemma ChunkEncodes(words: seq<int>, k: nat, symbols: Symbols, location: int)
    requires AllWords(words) && k < |words| && Chunk(words, k).Instr?
    ensures var s := Chunk(words, k);
            && ShapeFault(s.mnemonic, s.operands).None?
            && (IsTwoWord(s.mnemonic) <==> ChunkLength(words, k) == 2)
            && Encode(s.mnemonic, s.operands, symbols, location) == Ok(words[k])
            && (IsTwoWord(s.mnemonic) ==>
                  && k + 1 < |words| && s.operands != []
                  && Value(s.operands[0], symbols, location) == Ok(words[k + 1]))
  {
    hide Decode, DisassembleWord, And, Word;
    if PairAt(words, k) {
      PairEncodes(words[k], words[k + 1], symbols, location);
    } else {
      PrintedEncodes(words[k], symbols, location);
    }
  }

  lemma PairEncodes(word: int, target: int, symbols: Symbols, location: int)
    requires IsWord(word) && IsWord(target) && And(target, 0xF000) == 0
    requires Decode(word).Some? && IsTwoWord(Decode(word).value.mnemonic)
    ensures var m, operands := Decode(word).value.mnemonic, [Number(target, false)];
            && ShapeFault(m, operands).None? && Encode(m, operands, symbols, location) == Ok(word)
            && Value(operands[0], symbols, location) == Ok(target)
  {
    Pow2Table();
    HighMask(target, 12);
    hide Decode, And;
    assert Accounts(Decode(word), word);
  }

  lemma ChunkFirst(words: seq<int>, k: nat, location: int)
    requires AllWords(words) && k < |words|
    ensures NextLocation(Chunk(words, k), map[], location) == CheckedLocation(location + ChunkLength(words, k))
  {
    hide Chunk, ChunkLength, Encode, ShapeFault, CheckedLocation;
    ChunkCases(words, k);
    ChunkFits(words, k);
    if Chunk(words, k).Instr? {
      ChunkEncodes(words, k, map[], location);
      CountIsChunk(Chunk(words, k).mnemonic);
    }
  }

  lemma CountIsChunk(m: Mnemonic)
    ensures WordCount(m) == if IsTwoWord(m) then 2 else 1
  {
  }

  // --------------------------------------------------------- the whole source

  function LinesOf(statements: seq<Statement>): (lines: seq<Line>)
    ensures |lines| == |statements|
  {
    seq(|statements|, n requires 0 <= n < |statements| => Line(None, statements[n]))
  }

  /** How many words the first n source lines stand for. */
  function Consumed(words: seq<int>, n: nat): nat
    requires AllWords(words)
  {
    if n == 0 then 0
    else
      var k := Consumed(words, n - 1);
      if k < |words| then k + ChunkLength(words, k) else k
  }

  lemma {:induction false} SourceAt(words: seq<int>, n: nat)
    requires AllWords(words) && n <= |Source(words, 0)|
    ensures Consumed(words, n) <= |words|
    ensures Source(words, 0)[n..] == Source(words, Consumed(words, n))
    ensures n < |Source(words, 0)| ==>
              && Consumed(words, n) < |words|
              && Source(words, 0)[n] == Chunk(words, Consumed(words, n))
              && Consumed(words, n + 1) == Consumed(words, n) + ChunkLength(words, Consumed(words, n)) <= |words|
    ensures n == |Source(words, 0)| ==> Consumed(words, n) == |words|
  {
    hide Chunk, ChunkLength, Decode;
    if n > 0 {
      SourceAt(words, n - 1);
      assert Source(words, 0)[n..] == Source(words, 0)[n - 1..][1..];
    }
    var k := Consumed(words, n);
    assert n < |Source(words, 0)| ==> Source(words, 0)[n] == Source(words, 0)[n..][0];
    if k < |words| { ChunkFits(words, k); }
  }

  lemma ChunkFits(words: seq<int>, k: nat)
    requires AllWords(words) && k < |words|
    ensures 1 <= ChunkLength(words, k) <= 2 && k + ChunkLength(words, k) <= |words|
  {
    hide Decode;
  }

  /** Pass one counts the words, until it runs out of program space. */
  lemma {:induction false} FirstCounts(words: seq<int>, n: nat)
    requires AllWords(words) && n <= |Source(words, 0)|
    ensures var p := FirstPass(LinesOf(Source(words, 0)), n);
            if Consumed(words, n) <= 4096 then p == Reached(First(map[], Consumed(words, n))) else p.Stopped?
  {
    hide Chunk, ChunkLength, Source, NextLocation;
    if n > 0 {
      FirstCounts(words, n - 1);
      SourceAt(words, n - 1);
      ChunkFirst(words, Consumed(words, n - 1), Consumed(words, n - 1));
      ChunkFits(words, Consumed(words, n - 1));
    }
  }

  /** The first k words as an image. */
  function Loaded(words: seq<int>, k: nat): map<int, int>
    requires k <= |words|
  {
    map a | 0 <= a < k :: words[a]
  }

  /** A listing with the words of the first k addresses in order. */
  predicate ListsFirst(listing: seq<Row>, words: seq<int>, k: nat)
  {
    |listing| == k <= |words| && forall a :: 0 <= a < k ==> listing[a].address == a && listing[a].word == words[a]
  }

  predicate Emitted(st: Second, words: seq<int>, k: nat)
  {
    k <= |words| && st.location == k && st.words == Loaded(words, k) && ListsFirst(st.listing, words, k)
  }

  lemma EmitNext(st: Second, words: seq<int>, k: nat, line: nat)
    requires Emitted(st, words, k) && k < |words| && k < 4096
    ensures Emit(st, words[k], line).Ok? && Emitted(Emit(st, words[k], line).value, words, k + 1)
  {
  }

  lemma ChunkSecond(st: Second, words: seq<int>, k: nat, n: nat)
    requires AllWords(words) && k < |words| && Emitted(st, words, k) && k + ChunkLength(words, k) <= 4096
    requires k + ChunkLength(words, k) <= |words|
    ensures var r := SecondLine(st, Chunk(words, k), map[], n);
            r.Ok? && Emitted(r.value, words, k + ChunkLength(words, k))
  {
    hide Chunk, Encode, Emit, Emitted, Decode;
    EmittedAt(st, words, k);
    ChunkCases(words, k);
    ChunkFits(words, k);
    WordRange(words, k);
    EmitNext(st, words, k, n);
    if Chunk(words, k).Instr? {
      ChunkEncodes(words, k, map[], k);
      if ChunkLength(words, k) == 2 {
        EmitNext(Emit(st, words[k], n).value, words, k + 1, n);
      }
    } else {
      RawEmits(st, words[k], n);
    }
  }

  lemma WordRange(words: seq<int>, k: nat)
    requires AllWords(words) && k < |words|
    ensures IsWord(words[k])
  {
  }

  lemma EmittedAt(st: Second, words: seq<int>, k: nat)
    requires Emitted(st, words, k)
    ensures st.location == k
  {
  }

  lemma RawEmits(st: Second, word: int, n: nat)
    requires IsWord(word)
    ensures SecondLine(st, RawWord(word), map[], n) == Emit(st, word, n)
  {
    hide Emit;
    var operands := [Number(word, false)];
    assert ValuesOf(operands, 0, map[], st.location) == Ok([]);
    assert [] + [word] == [word];
    assert Value(operands[0], map[], st.location + 0) == Ok(word);
    assert ValuesOf(operands, 1, map[], st.location) == Ok([word]);
    assert EmitWords(st, [word], 0, n) == Ok(st);
    assert EmitWords(st, [word], 1, n) == Emit(st, word, n);
  }

  lemma {:induction false} SecondEmits(words: seq<int>, n: nat)
    requires AllWords(words) && |words| <= 4096 && n <= |Source(words, 0)|
    ensures var p := SecondPass(LinesOf(Source(words, 0)), map[], n);
            p.Reached? && Emitted(p.state, words, Consumed(words, n))
  {
    hide Chunk, ChunkLength, Source, SecondLine, Emitted;
    if n > 0 {
      SecondEmits(words, n - 1);
      SourceAt(words, n - 1);
      ChunkSecond(SecondPass(LinesOf(Source(words, 0)), map[], n - 1).state, words, Consumed(words, n - 1), n - 1);
    } else {
      NothingEmitted(words);
    }
  }

  lemma NothingEmitted(words: seq<int>)
    ensures Emitted(Second(map[], [], 0), words, 0)
  {
  }

  /** Lossless round trip: the printed source of any words assembles exactly when
      they fit in the program space, and then to exactly those words at the
      addresses 0, 1, 2, ..., whatever mix of pairs, lone control-flow opcodes,
      targets out of range and undocumented words they are. */
  lemma SourceRoundTrip(words: seq<int>)
    requires AllWords(words)
    ensures var r := Passes(LinesOf(Source(words, 0)));
            && (r.Assembled? <==> |words| <= 4096)
            && (r.Assembled? ==>
                  && r.assembly.words == Loaded(words, |words|)
                  && r.assembly.symbols == map[]
                  && ListsFirst(r.assembly.listing, words, |words|))
  {
    hide Source, Chunk, FirstPass, SecondPass, Consumed;
    var n := |Source(words, 0)|;
    SourceAt(words, n);
    FirstCounts(words, n);
    if |words| <= 4096 { SecondEmits(words, n); }
  }
}
