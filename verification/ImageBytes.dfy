/** The raw image file: what the assembler writes and the machine and the
    disassembler read back. */
module ImageBytes {
  import opened Arithmetic
  import opened Isa
  import opened Semantics
  import opened Machine
  import opened Assembler
  import opened TwoPass

  datatype RawFault = UnknownByteOrder | BadFill | WordTooWide

  datatype RawResult = Raw(bytes: seq<int>) | Refused(fault: RawFault)

  /** `word.to_bytes(2, byteorder)` */
  function BytesOf(word: int, big: bool): seq<int>
  {
    if big then [word / 256, word % 256] else [word % 256, word / 256]
  }

  lemma EmptyOrNot(addresses: set<int>)
    ensures addresses == {} || exists a :: a in addresses
  {
    if !exists a :: a in addresses { assert addresses == {}; }
  }

  /** One more than the highest of some addresses. */
  ghost function Above(addresses: set<int>): (r: nat)
    ensures r > 0 ==> r - 1 in addresses
    ensures forall a :: a in addresses ==> a < r || a < 0
  {
    if addresses == {} then 0
    else
      EmptyOrNot(addresses);
      var a :| a in addresses;
      var rest := Above(addresses - {a});
      assert forall b :: b in addresses ==> b == a || b in addresses - {a};
      if a + 1 > rest then a + 1 else rest
  }

  /** The length of the address range of an assembly result. */
  ghost function Extent(words: map<int, int>): (r: nat)
    ensures r > 0 ==> r - 1 in words
    ensures forall a :: a in words ==> a < r || a < 0
  {
    Above(words.Keys)
  }

  /** The words of the address range, the fill where nothing was assembled. */
  function Filled(words: map<int, int>, fill: int, n: nat): (r: seq<int>)
    ensures |r| == n && forall a :: 0 <= a < n ==> r[a] == if a in words then words[a] else fill
  {
    seq(n, a => if a in words then words[a] else fill)
  }

  function Serialized(image: seq<int>, n: nat, big: bool): (r: seq<int>)
    requires n <= |image|
    ensures |r| == 2 * n
    ensures forall a :: 0 <= a < n ==> PairOf(r, a) == BytesOf(image[a], big)
  {
    if n == 0 then [] else Serialized(image, n - 1, big) + BytesOf(image[n - 1], big)
  }

  /** The two bytes of address a. */
  function PairOf(bytes: seq<int>, a: nat): seq<int>
    requires 2 * a + 2 <= |bytes|
  {
    [bytes[2 * a], bytes[2 * a + 1]]
  }

  /** Addresses and words of an assembly result. */
  predicate ProperImage(words: map<int, int>)
  {
    forall a :: a in words ==> 0 <= a < 4096 && IsWord(words[a])
  }

  /** `AssemblyResult.raw_bytes`; the last refusal is the OverflowError of a word
      that does not fit two bytes, which an assembly never holds. */
  ghost function RawBytes(words: map<int, int>, byteOrder: string, fill: int): (r: RawResult)
    ensures r.Raw? <==> && (byteOrder == "big" || byteOrder == "little") && IsWord(fill)
                        && forall a :: a in words && a >= 0 ==> IsWord(words[a])
    ensures r.Raw? ==>
              && |r.bytes| == 2 * Extent(words)
              && forall a :: 0 <= a < Extent(words) ==>
                   PairOf(r.bytes, a) == BytesOf(if a in words then words[a] else fill, byteOrder == "big")
  {
    if byteOrder != "big" && byteOrder != "little" then Refused(UnknownByteOrder)
    else if !IsWord(fill) then Refused(BadFill)
    else if exists a :: a in words && a >= 0 && !IsWord(words[a]) then Refused(WordTooWide)
    else
      var n := Extent(words);
      Raw(Serialized(Filled(words, fill, n), n, byteOrder == "big"))
  }

  /** `_load_binary` of the disassembler: a list of words, or a ValueError. */
  function ReadWords(content: seq<int>, big: bool): Option<seq<int>>
  {
    if |content| % 2 == 1 then None
    else Some(seq(|content| / 2, k requires 0 <= k < |content| / 2 =>
           if big then content[2 * k] * 256 + content[2 * k + 1] else content[2 * k + 1] * 256 + content[2 * k]))
  }

  /** Reading the bytes back gives the words. */
  lemma {:induction false} WordsBack(image: seq<int>, n: nat, big: bool)
    requires AllWords(image) && n <= |image|
    ensures |Serialized(image, n, big)| % 2 == 0 && AllBytes(Serialized(image, n, big))
    ensures WordsOf(Serialized(image, n, big), big) == image[..n]
  {
    hide WordsOf, BytesOf, AllBytes;
    if n > 0 {
      WordsBack(image, n - 1, big);
      PairBack(Serialized(image, n - 1, big), image[n - 1], big);
      assert image[..n - 1] + [image[n - 1]] == image[..n];
    } else {
      NoWords(big);
    }
  }

  lemma NoWords(big: bool)
    ensures WordsOf([], big) == [] && AllBytes([])
  {
  }

  lemma PairBack(bytes: seq<int>, word: int, big: bool)
    requires |bytes| % 2 == 0 && AllBytes(bytes) && IsWord(word)
    ensures |bytes + BytesOf(word, big)| % 2 == 0 && AllBytes(bytes + BytesOf(word, big))
    ensures WordsOf(bytes + BytesOf(word, big), big) == WordsOf(bytes, big) + [word]
  {
    var more := bytes + BytesOf(word, big);
    WordSplit(word);
    assert more[..|more| - 2] == bytes;
    hide AllBytes;
    assert WordsOf(more, big) == WordsOf(more[..|more| - 2], big) + [word];
    assert AllBytes(more) by { BytesAppend(bytes, word, big); }
  }

  lemma BytesAppend(bytes: seq<int>, word: int, big: bool)
    requires AllBytes(bytes) && IsWord(word)
    ensures AllBytes(bytes + BytesOf(word, big))
  {
    WordSplit(word);
  }

  lemma WordSplit(word: int)
    ensures word / 256 * 256 + word % 256 == word
    ensures IsWord(word) ==> 0 <= word / 256 < 256
  {
  }

  lemma {:induction false} WordAt(content: seq<int>, big: bool, k: nat)
    requires |content| % 2 == 0 && k < |content| / 2
    ensures WordsOf(content, big)[k]
         == if big then content[2 * k] * 256 + content[2 * k + 1] else content[2 * k + 1] * 256 + content[2 * k]
    decreases |content|
  {
    var n := |content| - 2;
    if 2 * k < n {
      WordAt(content[..n], big, k);
      assert WordsOf(content, big)[k] == WordsOf(content[..n], big)[k];
    }
  }

  /** An odd content is refused, any other gives the words of its pairs. */
  lemma ReadIsWords(content: seq<int>, big: bool)
    ensures ReadWords(content, big)
         == if |content| % 2 == 1 then None else Some(WordsOf(content, big))
  {
    hide WordsOf;
    if |content| % 2 == 0 {
      var words, same := ReadWords(content, big).value, WordsOf(content, big);
      forall k | 0 <= k < |content| / 2
        ensures words[k] == same[k]
      {
        WordAt(content, big, k);
      }
      assert words == same;
    }
  }

  lemma PairsAreWords(content: seq<int>, big: bool)
    requires AllBytes(content) && |content| % 2 == 0
    ensures AllWords(WordsOf(content, big))
  {
    hide WordsOf;
    forall k | 0 <= k < |content| / 2
      ensures IsWord(WordsOf(content, big)[k])
    {
      WordAt(content, big, k);
    }
  }

  /** The two readers of raw images compared, for any bytes and any place in the
      program memory: the machine's loader accepts exactly what the
      disassembler's accepts and what fits above the origin, and then loads the
      words the other returns; of a longer image it loads what fits. */
  lemma ReadersAgree(content: seq<int>, big: bool, origin: int)
    requires AllBytes(content) && 0 <= origin < 4096
    ensures BinaryErrorOf(content, big, origin).None?
       <==> ReadWords(content, big).Some? && |content| <= 2 * (4096 - origin)
    ensures ReadWords(content, big).None? <==> BinaryErrorOf(content, big, origin) == Some(OddByteCount)
    ensures ReadWords(content, big).Some? ==>
              var words, room := ReadWords(content, big).value, 4096 - origin;
              && words == WordsOf(content, big)
              && Loadable(words, origin) == (if |words| <= room then |words| else room)
              && BinaryErrorOf(content, big, origin) == if |words| <= room then None else Some(ImageTooLarge)
  {
    hide WordsOf, Loadable, AllBytes, AllWords;
    ReadIsWords(content, big);
    if |content| % 2 == 0 {
      var words := WordsOf(content, big);
      PairsAreWords(content, big);
      if origin + |words| <= 4096 {
        AllLoadable(words, origin);
      } else {
        FillsMemory(words, origin);
      }
    }
  }

  lemma FillsMemory(words: seq<int>, origin: int)
    requires AllWords(words) && 0 <= origin < 4096 < origin + |words|
    ensures Loadable(words, origin) == 4096 - origin
  {
    hide Loadable;
    LoadableIsLongest(words, origin);
  }

  lemma {:induction false} AllLoadable(words: seq<int>, origin: int)
    requires AllWords(words) && 0 <= origin && origin + |words| <= 4096
    ensures Loadable(words, origin) == |words|
    decreases words
  {
    if words != [] { AllLoadable(words[1..], origin + 1); }
  }

  lemma AssembledIsProper(lines: seq<Line>)
    requires Passes(lines).Assembled?
    ensures ProperImage(Passes(lines).assembly.words)
  {
    hide SecondAt, SecondLine, FirstLine, Passes, LineHolds;
    ImageExact(lines);
    ImageProper(SecondAt(lines, |lines|).listing);
  }

  lemma {:induction false} ImageProper(listing: seq<Row>)
    requires forall i :: 0 <= i < |listing| ==> ProperRow(listing[i])
    ensures ProperImage(ImageOf(listing))
  {
    if listing != [] {
      var before, last := listing[..|listing| - 1], listing[|listing| - 1];
      forall i | 0 <= i < |before|
        ensures ProperRow(before[i])
      {
        assert ProperRow(listing[i]);
      }
      ImageProper(before);
      assert ProperRow(last);
    }
  }

  /** Image round trip: for every successful assembly, either byte order and any
      fill, the written bytes load without error at origin 0; they set each
      address up to the highest assembled one to its word or the fill, leave the
      rest of the program memory alone, and the disassembler reads the same
      words. */
  lemma ImageRoundTrip(lines: seq<Line>, big: bool, fill: int, memory: seq<int>)
    requires Passes(lines).Assembled? && IsWord(fill) && |memory| == 4096
    ensures var words := Passes(lines).assembly.words;
            var n := Extent(words);
            var image := Filled(words, fill, n);
            var bytes := Serialized(image, n, big);
            && ProperImage(words) && |bytes| % 2 == 0 && AllBytes(bytes)
            && RawBytes(words, if big then "big" else "little", fill) == Raw(bytes)
            && WordsOf(bytes, big) == image && ReadWords(bytes, big) == Some(image)
            && LoadErrorOf(image, 0) == None && Loadable(image, 0) == n
            && (var loaded := Overlay(memory, 0, image[..n]);
                && |loaded| == 4096
                && (forall a :: 0 <= a < n ==> loaded[a] == if a in words then words[a] else fill)
                && (forall a :: n <= a < 4096 ==> a !in words && loaded[a] == memory[a]))
  {
    hide Passes, Serialized, WordsOf, ReadWords, Loadable, Overlay, Extent, Filled, RawBytes, ProperImage, AllBytes;
    AssembledIsProper(lines);
    var words := Passes(lines).assembly.words;
    var n := Extent(words);
    var image := Filled(words, fill, n);
    ExtentFits(words);
    FilledWords(words, fill, n);
    RawIs(words, big, fill);
    WordsBack(image, n, big);
    assert image[..n] == image;
    ReadIsWords(Serialized(image, n, big), big);
    AllLoadable(image, 0);
    OverlayFilled(words, fill, memory);
  }

  lemma ExtentFits(words: map<int, int>)
    requires ProperImage(words)
    ensures Extent(words) <= 4096
  {
    hide Extent;
  }

  lemma RawIs(words: map<int, int>, big: bool, fill: int)
    requires ProperImage(words) && IsWord(fill)
    ensures RawBytes(words, if big then "big" else "little", fill)
         == Raw(Serialized(Filled(words, fill, Extent(words)), Extent(words), big))
  {
    hide Extent, Filled, Serialized;
    assert "big" != "little";
  }

  lemma OverlayFilled(words: map<int, int>, fill: int, memory: seq<int>)
    requires ProperImage(words) && |memory| == 4096 && Extent(words) <= 4096
    ensures var n := Extent(words);
            var loaded := Overlay(memory, 0, Filled(words, fill, n)[..n]);
            && |loaded| == 4096
            && (forall a :: 0 <= a < n ==> loaded[a] == if a in words then words[a] else fill)
            && (forall a :: n <= a < 4096 ==> a !in words && loaded[a] == memory[a])
  {
    hide Extent, Filled;
  }

  lemma FilledWords(words: map<int, int>, fill: int, n: nat)
    requires ProperImage(words) && IsWord(fill)
    ensures AllWords(Filled(words, fill, n))
  {
  }
}
