/** What a lookup and a verdict say, in terms of which entries accept the word. */
module Verdicts {
  import opened Isa
  import opened IsaDatabase
  import opened Classification

  ghost predicate AcceptedBy(entries: seq<Entry>, word: int, i: int)
    requires ValidSpansOf(entries)
  {
    0 <= i < |entries| && Accepts(entries[i], word)
  }

  ghost predicate NoneAccepts(entries: seq<Entry>, word: int)
    requires ValidSpansOf(entries)
  {
    forall i :: !AcceptedBy(entries, word, i)
  }

  ghost predicate OnlyAccepts(entries: seq<Entry>, word: int, i: int)
    requires ValidSpansOf(entries)
  {
    AcceptedBy(entries, word, i) && forall j :: AcceptedBy(entries, word, j) ==> j == i
  }

  ghost predicate TwoAccept(entries: seq<Entry>, word: int)
    requires ValidSpansOf(entries)
  {
    exists i, j :: i != j && AcceptedBy(entries, word, i) && AcceptedBy(entries, word, j)
  }

  lemma {:induction false} MatchesCount(entries: seq<Entry>, word: int)
    requires ValidSpansOf(entries)
    ensures Matches(entries, word) == [] <==> NoneAccepts(entries, word)
    ensures |Matches(entries, word)| > 1 <==> TwoAccept(entries, word)
    ensures |Matches(entries, word)| == 1 ==>
              exists i :: OnlyAccepts(entries, word, i)
                          && Matches(entries, word)[0] == (entries[i], Dictionary(entries[i].fields, word))
  {
    hide Accepts, Dictionary;
    if entries != [] {
      var n := |entries| - 1;
      MatchesCount(entries[..n], word);
      SameAccepted(entries, word);
      OneEntryMore(entries, word);
    }
  }

  lemma SameAccepted(entries: seq<Entry>, word: int)
    requires ValidSpansOf(entries) && entries != []
    ensures forall i :: i != |entries| - 1 ==>
              (AcceptedBy(entries, word, i) <==> AcceptedBy(entries[..|entries| - 1], word, i))
  {
    hide Accepts;
  }

  lemma OneEntryMore(entries: seq<Entry>, word: int)
    requires ValidSpansOf(entries) && entries != []
    requires var init := entries[..|entries| - 1];
             && (Matches(init, word) == [] <==> NoneAccepts(init, word))
             && (|Matches(init, word)| > 1 <==> TwoAccept(init, word))
             && (|Matches(init, word)| == 1 ==>
                   exists i :: OnlyAccepts(init, word, i)
                               && Matches(init, word)[0] == (init[i], Dictionary(init[i].fields, word)))
    ensures Matches(entries, word) == [] <==> NoneAccepts(entries, word)
    ensures |Matches(entries, word)| > 1 <==> TwoAccept(entries, word)
    ensures |Matches(entries, word)| == 1 ==>
              exists i :: OnlyAccepts(entries, word, i)
                          && Matches(entries, word)[0] == (entries[i], Dictionary(entries[i].fields, word))
  {
    hide Accepts, Dictionary;
    var n := |entries| - 1;
    var init := entries[..n];
    SameAccepted(entries, word);
    if Accepts(entries[n], word) {
      assert AcceptedBy(entries, word, n);
      if |Matches(init, word)| == 0 {
        assert OnlyAccepts(entries, word, n);
      } else {
        var i: int := SomeAccepted(init, word);
        assert AcceptedBy(entries, word, i);
      }
    } else {
      NotAccepted(entries, word);
      if |Matches(init, word)| == 1 {
        var i :| OnlyAccepts(init, word, i) && Matches(init, word)[0] == (init[i], Dictionary(init[i].fields, word));
        assert OnlyAccepts(entries, word, i);
      }
    }
  }

  /** An entry that does not accept the word changes nothing. */
  lemma NotAccepted(entries: seq<Entry>, word: int)
    requires ValidSpansOf(entries) && entries != [] && !Accepts(entries[|entries| - 1], word)
    ensures var init := entries[..|entries| - 1];
            && (NoneAccepts(entries, word) <==> NoneAccepts(init, word))
            && (TwoAccept(entries, word) <==> TwoAccept(init, word))
            && forall i :: OnlyAccepts(entries, word, i) <==> OnlyAccepts(init, word, i)
  {
    var init := entries[..|entries| - 1];
    SameAccepted(entries, word);
    assert forall i :: AcceptedBy(entries, word, i) <==> AcceptedBy(init, word, i);
    hide AcceptedBy;
    if TwoAccept(init, word) {
      var i, j :| i != j && AcceptedBy(init, word, i) && AcceptedBy(init, word, j);
      assert AcceptedBy(entries, word, i) && AcceptedBy(entries, word, j);
    }
  }

  lemma SomeAccepted(entries: seq<Entry>, word: int) returns (i: int)
    requires ValidSpansOf(entries) && !NoneAccepts(entries, word)
    ensures AcceptedBy(entries, word, i)
  {
    hide AcceptedBy;
    i :| AcceptedBy(entries, word, i);
  }

  /** `decode_word` finds an entry exactly when it is the only one that accepts the
      word, and then with the fields that entry decodes. */
  lemma LookupMeans(entries: seq<Entry>, word: int)
    requires ValidSpansOf(entries)
    ensures DecodeWordSpec(entries, word).Absent? <==> NoneAccepts(entries, word)
    ensures DecodeWordSpec(entries, word).Ambiguous? <==> TwoAccept(entries, word)
    ensures DecodeWordSpec(entries, word).Found? ==>
              exists i :: OnlyAccepts(entries, word, i)
                          && DecodeWordSpec(entries, word) == Found(entries[i], Dictionary(entries[i].fields, word))
  {
    hide Matches, Accepts, Dictionary, NoneAccepts, TwoAccept, OnlyAccepts;
    MatchesCount(entries, word);
  }

  /** The candidates of a kind are the mnemonics of the entries of that kind. */
  lemma {:induction false} CandidatesAre(k: Kind, entries: seq<Entry>, word: int, m: Mnemonic)
    requires ValidSpansOf(entries)
    ensures m in Candidates(k, entries, word)
       <==> exists i :: 0 <= i < |entries| && entries[i].mnemonic == m && IsCandidate(k, entries[i], word)
  {
    hide IsCandidate;
    if entries != [] {
      var n := |entries| - 1;
      CandidatesAre(k, entries[..n], word, m);
      if i :| 0 <= i < |entries| && entries[i].mnemonic == m && IsCandidate(k, entries[i], word) {
        if i < n { assert entries[..n][i] == entries[i]; }
      }
    }
  }

  /** The kind a class is about. */
  function KindOf(c: Class): Option<Kind>
  {
    match c
    case ReservedIndirectField => Some(ReservedKind)
    case SimultaneousUpdate => Some(SimultaneousKind)
    case PatternMismatch => Some(EnvelopeKind)
    case _ => None
  }

  ghost predicate HasCandidate(k: Kind, entries: seq<Entry>, word: int)
    requires ValidSpansOf(entries)
  {
    exists i :: 0 <= i < |entries| && IsCandidate(k, entries[i], word)
  }

  /** A verdict: ambiguous exactly when two entries accept the word; legal exactly
      when one does, with its mnemonic and fields; otherwise the first class that
      has a candidate, with the mnemonics of all its candidates, and the open
      question exactly for simultaneous updates. */
  lemma VerdictMeans(entries: seq<Entry>, word: int, m: Mnemonic)
    requires ValidSpansOf(entries) && 0 <= word <= 0xFFFF
    ensures var v := ClassifySpec(entries, word);
            && (v.AmbiguousWord? <==> TwoAccept(entries, word))
            && !v.BadWord?
            && (v.Verdict? ==>
                  && (v.classification.DocumentedLegal? <==> !NoneAccepts(entries, word))
                  && (v.classification.DocumentedLegal? ==>
                        exists i :: OnlyAccepts(entries, word, i) && v.mnemonics == {entries[i].mnemonic}
                                    && v.operands == Some(Dictionary(entries[i].fields, word)))
                  && (!v.classification.DocumentedLegal? ==> v.operands.None?)
                  && (v.question.Some? <==> v.classification.SimultaneousUpdate?))
    ensures var v := ClassifySpec(entries, word);
            v.Verdict? && !v.classification.DocumentedLegal? ==>
              && (v.classification.ReservedIndirectField? <==> HasCandidate(ReservedKind, entries, word))
              && (v.classification.SimultaneousUpdate? ==> HasCandidate(SimultaneousKind, entries, word))
              && (v.classification.PatternMismatch? ==>
                    !HasCandidate(SimultaneousKind, entries, word) && HasCandidate(EnvelopeKind, entries, word))
              && (v.classification.Unlisted? ==>
                    && !HasCandidate(SimultaneousKind, entries, word) && !HasCandidate(EnvelopeKind, entries, word)
                    && v.mnemonics == {})
              && (KindOf(v.classification).Some? ==>
                    (m in v.mnemonics <==> exists i :: 0 <= i < |entries| && entries[i].mnemonic == m
                                             && IsCandidate(KindOf(v.classification).value, entries[i], word)))
  {
    hide Matches, Accepts, Dictionary, NoneAccepts, TwoAccept, OnlyAccepts, Candidates, IsCandidate, HasCandidate;
    MatchesCount(entries, word);
    CandidatesAre(ReservedKind, entries, word, m);
    CandidatesAre(SimultaneousKind, entries, word, m);
    CandidatesAre(EnvelopeKind, entries, word, m);
    SomeCandidate(ReservedKind, entries, word);
    SomeCandidate(SimultaneousKind, entries, word);
    SomeCandidate(EnvelopeKind, entries, word);
  }

  lemma SomeCandidate(k: Kind, entries: seq<Entry>, word: int)
    requires ValidSpansOf(entries)
    ensures Candidates(k, entries, word) != {} <==> HasCandidate(k, entries, word)
  {
    hide IsCandidate, Candidates;
    forall m
      ensures m in Candidates(k, entries, word)
         <==> exists i :: 0 <= i < |entries| && entries[i].mnemonic == m && IsCandidate(k, entries[i], word)
    {
      CandidatesAre(k, entries, word, m);
    }
    if i :| 0 <= i < |entries| && IsCandidate(k, entries[i], word) {
      assert entries[i].mnemonic in Candidates(k, entries, word);
    }
    if Candidates(k, entries, word) != {} {
      var m :| m in Candidates(k, entries, word);
    }
  }
}
