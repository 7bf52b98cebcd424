/** The tools end to end: words printed by the disassembler, assembled, written
    as a raw image and loaded into the machine are the same words. */
module Toolchain {
  import opened Bits
  import opened Arithmetic
  import opened Isa
  import opened Decoder
  import opened Semantics
  import opened Machine
  import opened Assembler
  import opened Disassembler
  import opened RoundTrip
  import opened ImageBytes

  /** Exactly the words with no documented one-word source form are printed as
      raw data: undocumented words, lone control-flow opcodes, and indirect
      operands that keep the ARP but set its bit. */
  lemma PrintedRawExactly(word: int)
    requires IsWord(word)
    ensures DisassembleWord(word).value == RawWord(word) <==>
              match Decode(word)
              case None => true
              case Some(i) =>
                || IsTwoWord(i.mnemonic)
                || (IsIndirect(i) && ControlBit(i.operands.field, 3) && i.operands.field % 2 == 1)
  {
    hide Decode, Modifier, And;
    var d := Decode(word);
    assert Accounts(d, word);
    if d.Some? && IsIndirect(d.value) {
      IndirectForm(d.value, word);
    }
  }

  lemma IndirectForm(i: Instruction, word: int)
    requires Legal(i) && IsIndirect(i)
    ensures And(i.operands.field, 0x08) != 0 <==> ControlBit(i.operands.field, 3)
    ensures And(i.operands.field, 1) == i.operands.field % 2
  {
    Pow2Table();
    ControlMasks(i.operands.field);
    hide And, Pow2;
  }

  /** The full circle for any image that fits in the program space. */
  lemma FullCircle(words: seq<int>, big: bool, fill: int, memory: seq<int>)
    requires AllWords(words) && |words| <= 4096 && IsWord(fill) && |memory| == 4096
    ensures var lines := LinesOf(Source(words, 0));
            && Passes(lines).Assembled?
            && var image := Passes(lines).assembly.words;
               var n := Extent(image);
               && n == |words| && Filled(image, fill, n) == words
               && var bytes := Serialized(words, n, big);
                  && |bytes| % 2 == 0 && WordsOf(bytes, big) == words
                  && ReadWords(bytes, big) == Some(words)
                  && LoadErrorOf(words, 0) == None && Loadable(words, 0) == n
                  && Overlay(memory, 0, words) == words + memory[n..]
  {
    hide Source, Passes, Serialized, WordsOf, ReadWords, Loadable, Overlay;
    SourceRoundTrip(words);
    var lines := LinesOf(Source(words, 0));
    ImageRoundTrip(lines, big, fill, memory);
    var image := Passes(lines).assembly.words;
    var n := Extent(image);
    ExtentOfLoaded(words);
    assert Filled(image, fill, n) == words;
    OverlayFromZero(memory, words);
  }

  lemma ExtentOfLoaded(words: seq<int>)
    requires |words| <= 4096
    ensures Extent(Loaded(words, |words|)) == |words|
  {
    assert |words| > 0 ==> |words| - 1 in Loaded(words, |words|);
  }

  lemma OverlayFromZero(memory: seq<int>, words: seq<int>)
    requires |words| <= |memory|
    ensures Overlay(memory, 0, words) == words + memory[|words|..]
  {
  }
}
