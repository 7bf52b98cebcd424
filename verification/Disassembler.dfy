/** The disassembler: one word, a source text, and a listing with addresses. It
    looks words up with `decode_word`, which on the shipped database is `Decode`. */
module Disassembler {
  import opened Bits
  import opened Isa
  import opened Decoder
  import opened Semantics
  import opened Encoder
  import opened Assembler

  /** `f"{value}"`: the shortest decimal digits. */
  function Decimal(value: int): Operand { Number(value, true) }

  function RawWord(word: int): Statement { WordData([Number(word, false)]) }

  /** The modifier dictionary: its missing fourth key is never looked up. */
  function Modifier(control: int): CounterUpdate
    requires 0 <= control < 128 && LegalControl(control)
  {
    hide Bitwise, And;
    ControlMasks(control);
    var bits := And(control, 0x30);
    if bits == 0x00 then Keep
    else if bits == 0x20 then Increment
    else if bits == 0x10 then Decrement
    else assert false; Keep
  }

  /** An indirect operand with what comes before, in the middle and after the
      next ARP; a redundant ARP bit has no source form. */
  function Indirect(m: Mnemonic, word: int, control: int, before: seq<Operand>, short: seq<Operand>,
      long: seq<Operand>): Statement
    requires 0 <= control < 128 && LegalControl(control)
  {
    if And(control, 0x08) != 0 then
      if And(control, 1) != 0 then RawWord(word)
      else Instr(m, before + [Star(Modifier(control))] + short)
    else Instr(m, before + [Star(Modifier(control))] + long + [Decimal(And(control, 1))])
  }

  function OptionalDigits(shift: int): seq<Operand>
  {
    if shift != 0 then [Decimal(shift)] else []
  }

  /** The source form of a decoded instruction of one word. */
  function FormOf(i: Instruction, word: int): Statement
    requires Legal(i)
  {
    var m := i.mnemonic;
    match i.operands
    case NoOperands => if IsTwoWord(m) then RawWord(word) else Instr(m, [])
    case Constant(c) => Instr(m, [Decimal(c)])
    case RegisterConstant(r, c) => Instr(m, [Register(r), Decimal(c)])
    case PortData(port, indirect, field) =>
      if !indirect then Instr(m, [Decimal(field), Decimal(port)])
      else Indirect(m, word, field, [], [Decimal(port)], [Decimal(port)])
    case ShiftData(shift, indirect, field) =>
      if !indirect then Instr(m, [Decimal(field)] + OptionalDigits(shift))
      else Indirect(m, word, field, [], OptionalDigits(shift), [Decimal(shift)])
    case RegisterData(r, indirect, field) =>
      if !indirect then Instr(m, [Register(r), Decimal(field)])
      else Indirect(m, word, field, [Register(r)], [], [])
    case Data(indirect, field) =>
      if !indirect then Instr(m, [Decimal(field)])
      else Indirect(m, word, field, [], [], if m.SACL? then [Decimal(0)] else [])
  }

  /** `disassemble_word`; None is the ValueError for a number that is no word. */
  function DisassembleWord(word: int): (r: Option<Statement>)
    ensures r.Some? <==> 0 <= word <= 0xFFFF
  {
    if !(0 <= word <= 0xFFFF) then None
    else
      var d := Decode(word);
      assert Accounts(d, word);
      Some(if d.None? then RawWord(word) else FormOf(d.value, word))
  }

  // ------------------------------------------------------------- source form

  /** A control-flow opcode followed by a word that is a program address. */
  predicate PairAt(words: seq<int>, k: nat)
    requires k < |words| && AllWords(words)
  {
    var d := Decode(words[k]);
    d.Some? && IsTwoWord(d.value.mnemonic) && k + 1 < |words| && And(words[k + 1], 0xF000) == 0
  }

  function ChunkLength(words: seq<int>, k: nat): nat
    requires k < |words| && AllWords(words)
  {
    if PairAt(words, k) then 2 else 1
  }

  function Chunk(words: seq<int>, k: nat): Statement
    requires k < |words| && AllWords(words)
  {
    if PairAt(words, k) then Instr(Decode(words[k]).value.mnemonic, [Number(words[k + 1], false)])
    else DisassembleWord(words[k]).value
  }

  /** The source lines for the words from index k on. */
  function Source(words: seq<int>, k: nat): seq<Statement>
    requires k <= |words| && AllWords(words)
    decreases |words| - k
  {
    if k == |words| then [] else [Chunk(words, k)] + Source(words, k + ChunkLength(words, k))
  }

  // --------------------------------------------------- where statements begin

  /** Two words make one statement: a control-flow opcode, and a next word that is
      a program address. */
  predicate TakesTarget(words: seq<int>, k: nat)
    requires k < |words| && AllWords(words)
  {
    match Decode(words[k])
    case Some(i) => IsTwoWord(i.mnemonic) && k + 1 < |words| && words[k + 1] < 4096
    case None => false
  }

  /** A statement begins at every word but the target of the statement before. */
  predicate Starts(words: seq<int>, k: nat)
    requires k <= |words| && AllWords(words)
  {
    k == 0 || !(Starts(words, k - 1) && TakesTarget(words, k - 1))
  }

  /** The statement a start stands for. */
  function StatementAt(words: seq<int>, k: nat): Statement
    requires k < |words| && AllWords(words)
  {
    if TakesTarget(words, k) then Instr(Decode(words[k]).value.mnemonic, [Number(words[k + 1], false)])
    else DisassembleWord(words[k]).value
  }

  lemma PairTakes(words: seq<int>, k: nat)
    requires k < |words| && AllWords(words)
    ensures PairAt(words, k) <==> TakesTarget(words, k)
    ensures k + 1 < |words| ==> (And(words[k + 1], 0xF000) == 0 <==> words[k + 1] < 4096)
  {
    hide Decode, And;
    if k + 1 < |words| { AddressTest(words[k + 1]); }
  }

  /** All starts from k on, in order. */
  ghost predicate AllStarts(words: seq<int>, k: nat, starts: seq<nat>)
    requires k <= |words| && AllWords(words)
  {
    && (forall n :: 0 <= n < |starts| ==> k <= starts[n] < |words| && Starts(words, starts[n]))
    && (forall j, n :: 0 <= j < n < |starts| ==> starts[j] < starts[n])
    && (forall a :: k <= a < |words| && Starts(words, a) ==> a in starts)
  }

  function StatementsAt(words: seq<int>, starts: seq<nat>): seq<Statement>
    requires AllWords(words) && forall n :: 0 <= n < |starts| ==> starts[n] < |words|
  {
    seq(|starts|, n requires 0 <= n < |starts| => StatementAt(words, starts[n]))
  }

  /** The printed source has one line for every start, in order: the instruction
      with its target exactly where two words belong together, and the single word
      otherwise. */
  lemma {:induction false} SourceByStarts(words: seq<int>, k: nat) returns (starts: seq<nat>)
    requires k <= |words| && AllWords(words) && Starts(words, k)
    ensures AllStarts(words, k, starts) && Source(words, k) == StatementsAt(words, starts)
    decreases |words| - k
  {
    hide Decode, Source, StatementAt, Starts, AllWords;
    if k == |words| {
      starts := [];
      SourceEnds(words);
    } else {
      var next := NextStatement(words, k);
      var rest := SourceByStarts(words, next);
      starts := [k] + rest;
      OneStartMore(words, k, next, rest);
      assert StatementsAt(words, starts) == [StatementAt(words, k)] + StatementsAt(words, rest);
    }
  }

  lemma OneStartMore(words: seq<int>, k: nat, next: nat, rest: seq<nat>)
    requires k < next <= |words| && AllWords(words) && Starts(words, k) && AllStarts(words, next, rest)
    requires forall a :: k < a < next ==> !Starts(words, a)
    ensures AllStarts(words, k, [k] + rest)
  {
    hide Starts, AllWords;
    assert ([k] + rest)[0] == k;
  }

  lemma SourceEnds(words: seq<int>)
    requires AllWords(words)
    ensures Source(words, |words|) == []
  {
  }

  /** One statement further. */
  lemma NextStatement(words: seq<int>, k: nat) returns (next: nat)
    requires k < |words| && AllWords(words) && Starts(words, k)
    ensures k < next <= |words| && Starts(words, next)
    ensures Source(words, k) == [StatementAt(words, k)] + Source(words, next)
    ensures forall a :: k < a < next ==> !Starts(words, a)
  {
    hide Decode, DisassembleWord, TakesTarget, PairAt, And, Starts;
    PairTakes(words, k);
    TakesFits(words, k);
    NextStart(words, k);
    next := k + ChunkLength(words, k);
    ChunkIsStatement(words, k);
  }

  lemma ChunkIsStatement(words: seq<int>, k: nat)
    requires k < |words| && AllWords(words)
    ensures Chunk(words, k) == StatementAt(words, k)
    ensures ChunkLength(words, k) == if TakesTarget(words, k) then 2 else 1
  {
    hide Decode, DisassembleWord, And;
    PairTakes(words, k);
  }

  lemma TakesFits(words: seq<int>, k: nat)
    requires k < |words| && AllWords(words)
    ensures TakesTarget(words, k) ==> k + 1 < |words|
  {
    hide Decode;
  }

  lemma NextStart(words: seq<int>, k: nat)
    requires k < |words| && AllWords(words) && Starts(words, k)
    ensures Starts(words, k + 1) <==> !TakesTarget(words, k)
    ensures TakesTarget(words, k) ==> k + 2 <= |words| && Starts(words, k + 2)
  {
    hide Decode, TakesTarget;
    TakesFits(words, k);
  }

  /** `disassemble_source` */
  method DisassembleSource(words: seq<int>) returns (rows: seq<Statement>)
    requires AllWords(words)
    ensures rows == Source(words, 0)
  {
    hide Decode, DisassembleWord, And;
    rows := [];
    var index := 0;
    while index < |words|
      invariant 0 <= index <= |words|
      invariant rows + Source(words, index) == Source(words, 0)
    {
      var word := words[index];
      ghost var rest := Source(words, index + ChunkLength(words, index));
      var decoded := Decode(word);
      if decoded.Some? && IsTwoWord(decoded.value.mnemonic) && index + 1 < |words|
         && And(words[index + 1], 0xF000) == 0 {
        assert (rows + [Chunk(words, index)]) + rest == rows + ([Chunk(words, index)] + rest);
        rows := rows + [Instr(decoded.value.mnemonic, [Number(words[index + 1], false)])];
        index := index + 2;
      } else {
        assert (rows + [Chunk(words, index)]) + rest == rows + ([Chunk(words, index)] + rest);
        rows := rows + [DisassembleWord(word).value];
        index := index + 1;
      }
    }
  }

  // ------------------------------------------------------------- listing form

  /** One listing row; the second row of a pair names the instruction it is the
      target of. */
  datatype ListingRow = ListingRow(address: int, word: int, statement: Statement, targetOf: Option<Mnemonic>)

  datatype ListingFault = OriginOutOfRange | ImageTooLong | OperandPastImage

  datatype Listing = Listed(rows: seq<ListingRow>) | Rejected(fault: ListingFault)

  /** The rows that are not targets, which are the source lines. */
  function Primary(rows: seq<ListingRow>): seq<Statement>
  {
    if rows == [] then []
    else
      var n := |rows| - 1;
      Primary(rows[..n]) + if rows[n].targetOf.None? then [rows[n].statement] else []
  }

  /** A row for every word, in order, from the origin on. */
  predicate Covers(rows: seq<ListingRow>, words: seq<int>, origin: int, n: nat)
  {
    && |rows| == n <= |words|
    && forall k :: 0 <= k < n ==>
         && rows[k].address == origin + k && rows[k].word == words[k]
         && (rows[k].targetOf.Some? ==> rows[k].statement == RawWord(words[k]))
  }

  /** A row at a start shows its statement; any other is the target of the
      instruction before it. */
  predicate RowFits(row: ListingRow, words: seq<int>, k: nat)
    requires k < |words| && AllWords(words)
  {
    if Starts(words, k) then row.targetOf.None? && row.statement == StatementAt(words, k)
    else && k > 0 && Decode(words[k - 1]).Some? && row.statement == RawWord(words[k])
         && row.targetOf == Some(Decode(words[k - 1]).value.mnemonic)
  }

  predicate RowsExact(rows: seq<ListingRow>, words: seq<int>, n: nat)
    requires AllWords(words)
  {
    |rows| == n <= |words| && forall k :: 0 <= k < n ==> RowFits(rows[k], words, k)
  }

  lemma RowsSnoc(rows: seq<ListingRow>, row: ListingRow, words: seq<int>)
    requires AllWords(words) && |rows| < |words| && RowsExact(rows, words, |rows|)
    requires RowFits(row, words, |rows|)
    ensures RowsExact(rows + [row], words, |rows| + 1)
  {
    hide RowFits, AllWords;
  }

  lemma OneRow(rows: seq<ListingRow>, row: ListingRow, words: seq<int>)
    requires AllWords(words) && |rows| < |words| && RowsExact(rows, words, |rows|)
    requires Starts(words, |rows|) && !TakesTarget(words, |rows|)
    requires row.targetOf.None? && Some(row.statement) == DisassembleWord(words[|rows|])
    ensures RowsExact(rows + [row], words, |rows| + 1) && Starts(words, |rows| + 1)
  {
    hide Decode, DisassembleWord, TakesTarget, RawWord, Starts, RowsExact, AllWords;
    NextStart(words, |rows|);
    RowsSnoc(rows, row, words);
  }

  lemma TwoRows(rows: seq<ListingRow>, first: ListingRow, second: ListingRow, words: seq<int>)
    requires AllWords(words) && |rows| + 1 < |words| && RowsExact(rows, words, |rows|)
    requires Starts(words, |rows|) && TakesTarget(words, |rows|) && Decode(words[|rows|]).Some?
    requires first.targetOf.None? && second.targetOf == Some(Decode(words[|rows|]).value.mnemonic)
    requires first.statement == StatementAt(words, |rows|) && second.statement == RawWord(words[|rows| + 1])
    ensures RowsExact(rows + [first] + [second], words, |rows| + 2) && Starts(words, |rows| + 2)
  {
    hide Decode, DisassembleWord, TakesTarget, RawWord, Starts, RowsExact, AllWords, StatementAt;
    NextStart(words, |rows|);
    RowsSnoc(rows, first, words);
    RowsSnoc(rows + [first], second, words);
  }

  /** Why an image is not listed. */
  function ListingFaultOf(words: seq<int>, origin: int): ListingFault
    requires AllWords(words)
  {
    if !(0 <= origin <= 0xFFF) then OriginOutOfRange
    else if 0xFFF - origin < |words| && Starts(words, 0xFFF - origin) && TakesTarget(words, 0xFFF - origin)
    then OperandPastImage
    else ImageTooLong
  }

  lemma PrimarySnoc(rows: seq<ListingRow>, row: ListingRow)
    ensures Primary(rows + [row]) == Primary(rows) + if row.targetOf.None? then [row.statement] else []
  {
    assert (rows + [row])[..|rows|] == rows;
  }

  /** `disassemble_listing`: it succeeds exactly when the image fits in the
      program space, and then shows every word at its address, the targets as
      such; without its target rows it is the source form. */
  method DisassembleListing(words: seq<int>, origin: int) returns (r: Listing)
    requires AllWords(words)
    ensures r.Listed? <==> 0 <= origin <= 0xFFF && origin + |words| <= 4096
    ensures r.Rejected? ==> r.fault == ListingFaultOf(words, origin)
    ensures r.Listed? ==> Covers(r.rows, words, origin, |words|) && Primary(r.rows) == Source(words, 0)
    ensures r.Listed? ==> RowsExact(r.rows, words, |words|)
  {
    hide Decode, DisassembleWord, And, Primary, Covers, Source, RowsExact, Starts;
    if !(0 <= origin <= 0xFFF) { return Rejected(OriginOutOfRange); }
    var rows := [];
    var offset := 0;
    NoRows(rows, words, origin);
    while offset < |words|
      invariant 0 <= offset <= |words| && origin + offset <= 4096
      invariant |rows| == offset && Covers(rows, words, origin, offset)
      invariant Primary(rows) + Source(words, offset) == Source(words, 0)
      invariant Starts(words, offset) && RowsExact(rows, words, offset)
    {
      var address := origin + offset;
      if address > 0xFFF {
        PastEnd(words, offset);
        return Rejected(ImageTooLong);
      }
      var word := words[offset];
      MoreSource(Primary(rows), words, offset);
      PairTakes(words, offset);
      var decoded := Decode(word);
      if decoded.Some? && IsTwoWord(decoded.value.mnemonic) && offset + 1 < |words|
         && And(words[offset + 1], 0xF000) == 0 {
        if address == 0xFFF { return Rejected(OperandPastImage); }
        var (first, second) := PairRows(words, offset, address, decoded.value.mnemonic);
        PrimarySnoc(rows, first);
        PrimarySnoc(rows + [first], second);
        CoversSnoc(rows, first, words, origin);
        CoversSnoc(rows + [first], second, words, origin);
        TwoRows(rows, first, second, words);
        rows := rows + [first] + [second];
        offset := offset + 2;
      } else {
        var row := ListingRow(address, word, DisassembleWord(word).value, None);
        PrimarySnoc(rows, row);
        CoversSnoc(rows, row, words, origin);
        OneRow(rows, row, words);
        rows := rows + [row];
        offset := offset + 1;
      }
    }
    r := Listed(rows);
  }

  /** The two rows of an instruction with its target. */
  function PairRows(words: seq<int>, k: nat, address: int, m: Mnemonic): (ListingRow, ListingRow)
    requires k + 1 < |words|
  {
    (ListingRow(address, words[k], Instr(m, [Number(words[k + 1], false)]), None),
     ListingRow(address + 1, words[k + 1], RawWord(words[k + 1]), Some(m)))
  }

  /** A statement that begins past the end follows no target. */
  lemma PastEnd(words: seq<int>, k: nat)
    requires 0 < k <= |words| && AllWords(words) && Starts(words, k)
    ensures !(Starts(words, k - 1) && TakesTarget(words, k - 1))
  {
  }

  lemma NoRows(rows: seq<ListingRow>, words: seq<int>, origin: int)
    requires rows == [] && AllWords(words)
    ensures Primary(rows) == [] && Covers(rows, words, origin, 0)
    ensures Primary(rows) + Source(words, 0) == Source(words, 0)
    ensures Source(words, |words|) == []
    ensures Starts(words, 0) && RowsExact(rows, words, 0)
  {
  }

  lemma CoversSnoc(rows: seq<ListingRow>, row: ListingRow, words: seq<int>, origin: int)
    requires Covers(rows, words, origin, |rows|) && |rows| < |words|
    requires row.address == origin + |rows| && row.word == words[|rows|]
    requires row.targetOf.Some? ==> row.statement == RawWord(row.word)
    ensures Covers(rows + [row], words, origin, |rows| + 1)
  {
  }

  lemma MoreSource(before: seq<Statement>, words: seq<int>, k: nat)
    requires k < |words| && AllWords(words)
    ensures before + Source(words, k) == (before + [Chunk(words, k)]) + Source(words, k + ChunkLength(words, k))
  {
    hide Chunk, Decode;
  }
}
