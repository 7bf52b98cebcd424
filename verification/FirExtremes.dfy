/** Filters whose products include -32768 by -32768: one such tap spoils the
    signed sum, two of them cancel. */
module FirExtremes {
  import opened Arithmetic
  import opened Isa
  import opened DecoderInverse
  import opened Semantics
  import opened Execution
  import opened Fir

  /** A filter on page 0 as the words at address 0. */
  function Program(f: Filter): seq<int>
  {
    seq(4096, k requires 0 <= k < 4096 =>
      if k < Length(f) then
        Word(Direct(MnemonicOf(f, k), if 1 <= k < Length(f) - 1 then CellOf(f, k) else 0))
      else 0)
  }

  /** The machine about to run it, interrupts masked and overflow mode off. */
  function Loaded(f: Filter, data: seq<int>): State
  {
    State(0, 0, 0, 0, [0, 0], [0, 0, 0, 0], Status(false, false, true, 0, 0),
          false, false, false, 0, Program(f), data, seq(8, _ => 0), seq(8, _ => 0), true, true)
  }

  predicate OnPageZero(f: Filter)
  {
    Fits(f) && Length(f) <= 4096 && forall k :: 1 <= k < Length(f) - 1 ==> 0 <= CellOf(f, k) < 128
  }

  lemma LoadedRuns(f: Filter, data: seq<int>)
    requires OnPageZero(f) && |data| == 144 && AllWords(data)
    ensures WellFormed(Loaded(f, data)) && Quiet(Loaded(f, data))
    ensures DirectProgram(Loaded(f, data), f)
  {
    hide Word, Legal, MnemonicOf, CellOf, Fits, Length, ShapeOf, AccessesData;
    forall k | 0 <= k < 4096
      ensures IsWord(Program(f)[k])
      ensures k < Length(f) ==>
                var cell := if 1 <= k < Length(f) - 1 then CellOf(f, k) else 0;
                0 <= cell < 128 && Program(f)[k] == Word(Direct(MnemonicOf(f, k), cell))
    {
      if k < Length(f) {
        WordInPlace(f, k, if 1 <= k < Length(f) - 1 then CellOf(f, k) else 0);
      }
    }
  }

  lemma WordInPlace(f: Filter, k: nat, cell: int)
    requires k < Length(f) && 0 <= cell < 128
    ensures IsWord(Word(Direct(MnemonicOf(f, k), cell)))
  {
    hide Word;
    MacShape(MnemonicOf(f, k), f, k);
    DecodeAfterWord(Direct(MnemonicOf(f, k), cell));
  }

  // ------------------------------------------------------------------ one tap

  /** One tap: sample in cell 0, coefficient in cell 1. */
  function OneTap(): Filter { Filter(0, [1]) }

  function OneTapData(): seq<int> { seq(144, a => if 0 <= a < 2 then 0x8000 else 0) }

  lemma OneTapFits()
    ensures OnPageZero(OneTap())
    ensures |OneTapData()| == 144 && AllWords(OneTapData())
    ensures Extremes(OneTapData(), OneTap(), 1) == 1 && SignedSum(OneTapData(), OneTap(), 1) == 0x4000_0000
  {
    assert Extremes(OneTapData(), OneTap(), 0) == 0;
    assert SignedSum(OneTapData(), OneTap(), 0) == 0;
  }

  /** -32768 times -32768 fits in 32 bits, and yet the filter leaves -2^30. */
  lemma OneExtremeFails()
    ensures var f, s := OneTap(), Loaded(OneTap(), OneTapData());
            && WellFormed(s) && Quiet(s) && !s.status.ovm && Fits(f) && RunsFilter(s, f)
            && Fits32(SignedSum(s.data, f, 1)) && SignedSum(s.data, f, 1) == 0x4000_0000
            && Signed32(After(s, Length(f)).acc) == -0x4000_0000
  {
    hide Program, WellFormed, Quiet, RunsFilter, DirectProgram, After, SignedSum, Extremes, Sum, Length;
    hide Accumulated;
    OneTapFits();
    LoadedRuns(OneTap(), OneTapData());
    FirProgram(Loaded(OneTap(), OneTapData()), OneTap());
    OneTapSum();
  }

  lemma OneTapSum()
    ensures |OneTapData()| == 144 && Fits(OneTap()) && Sum(OneTapData(), OneTap(), 1) == 0xC000_0000
  {
    assert Sum(OneTapData(), OneTap(), 0) == 0;
  }

  // --------------------------------------------------------------- three taps

  /** Samples in cells 2, 1, 0, coefficients in cells 3, 4, 5. */
  function ThreeTaps(): Filter { Filter(0, [3, 4, 5]) }

  /** Two extreme taps, and 32767 times -32768. */
  function ThreeTapsData(): seq<int>
  {
    seq(144, a => if a == 0 then 0x7FFF else if 1 <= a < 6 then 0x8000 else 0)
  }

  lemma ThreeTapsFit()
    ensures OnPageZero(ThreeTaps())
    ensures |ThreeTapsData()| == 144 && AllWords(ThreeTapsData())
  {
    forall k | 1 <= k < Length(ThreeTaps()) - 1
      ensures 0 <= CellOf(ThreeTaps(), k) < 128
    {
      var j := k / 2;
      assert j == 0 || j == 1 || j == 2 || j == 3;
    }
  }

  lemma ThreeTapsSums()
    ensures |ThreeTapsData()| == 144 && Fits(ThreeTaps())
    ensures Extremes(ThreeTapsData(), ThreeTaps(), 3) == 2
    ensures SignedSum(ThreeTapsData(), ThreeTaps(), 3) == 0x4000_8000
  {
    var d, f := ThreeTapsData(), ThreeTaps();
    assert Sample(f, 0) == 2 && Sample(f, 1) == 1 && Sample(f, 2) == 0;
    assert Extremes(d, f, 0) == 0 && Extremes(d, f, 1) == 1 && Extremes(d, f, 2) == 2;
    assert SignedSum(d, f, 0) == 0;
    assert SignedSum(d, f, 1) == 0x4000_0000;
    assert SignedSum(d, f, 2) == 0x8000_0000;
  }

  /** With two extreme taps the accumulator is the convolution again. */
  lemma TwoExtremesCancel()
    ensures var f, s := ThreeTaps(), Loaded(ThreeTaps(), ThreeTapsData());
            && WellFormed(s) && Quiet(s) && !s.status.ovm && Fits(f) && RunsFilter(s, f)
            && Extremes(s.data, f, 3) == 2
            && Signed32(After(s, Length(f)).acc) == SignedSum(s.data, f, 3) == 0x4000_8000
  {
    hide Program, WellFormed, Quiet, RunsFilter, DirectProgram, After, SignedSum, Extremes, Length, Accumulated;
    ThreeTapsFit();
    ThreeTapsSums();
    LoadedRuns(ThreeTaps(), ThreeTapsData());
    FirProgram(Loaded(ThreeTaps(), ThreeTapsData()), ThreeTaps());
    FirSigned(Loaded(ThreeTaps(), ThreeTapsData()), ThreeTaps());
  }
}
