/** The token scanner behind `translate_sentence` (src/Translator.cpp:6,16): repeated
    `std::regex_search` with the ECMAScript pattern `\w+|\s{2,}|\n|\r|\t`, each search
    starting where the previous match ended.  Characters are ASCII: `\w` is a letter, a
    digit or `_`, and `\s` is one of space, tab, newline, vertical tab, form feed and
    carriage return.  Tokens are spans of the input, `s[start..end]`; searching the
    suffix after a match is the same as searching `s` from the match's end, because the
    pattern has no anchors and no look-behind. */
module Tokenizer {
  import opened Options

  predicate IsWordChar(c: char) {
    ('a' <= c <= 'z') || ('A' <= c <= 'Z') || ('0' <= c <= '9') || c == '_'
  }

  predicate IsSpace(c: char) {
    c == ' ' || c == '\t' || c == '\n' || c == '\r' || c == 11 as char || c == 12 as char
  }

  /** The three characters the pattern matches one at a time. */
  predicate IsLineControl(c: char) {
    c == '\n' || c == '\r' || c == '\t'
  }

  datatype CharClass = WordChars | SpaceChars

  predicate InClass(c: char, cls: CharClass) {
    match cls
    case WordChars => IsWordChar(c)
    case SpaceChars => IsSpace(c)
  }

  /** Which alternative of the pattern produced a token. */
  datatype Kind = Word | WideSpace | Newline | CarriageReturn | Tab

  datatype Token = Token(kind: Kind, start: nat, end: nat)

  /** Every token is a non-empty span inside `s`. */
  predicate InBounds(s: string, ts: seq<Token>) {
    forall k :: 0 <= k < |ts| ==> ts[k].start < ts[k].end <= |s|
  }

  /** Each token ends no later than the next one starts. */
  predicate Ordered(ts: seq<Token>) {
    forall k :: 0 < k < |ts| ==> ts[k - 1].end <= ts[k].start
  }

  function Text(s: string, t: Token): string
    requires t.start <= t.end <= |s|
  {
    s[t.start..t.end]
  }

  /** The end of the longest run of `cls` characters starting at `i` (greedy `+`). */
  function RunEnd(s: string, i: nat, cls: CharClass): (e: nat)
    requires i <= |s|
    ensures i <= e <= |s|
    ensures forall k :: i <= k < e ==> InClass(s[k], cls)
    ensures e == |s| || !InClass(s[e], cls)
    decreases |s| - i
  {
    if i < |s| && InClass(s[i], cls) then RunEnd(s, i + 1, cls) else i
  }

  /** The match of the pattern that starts exactly at `i`, trying the alternatives in
      their written order as ECMAScript alternation does. */
  function MatchAt(s: string, i: nat): (m: Option<Token>)
    requires i < |s|
    ensures m.Some? ==> m.value.start == i < m.value.end <= |s|
  {
    if IsWordChar(s[i]) then Some(Token(Word, i, RunEnd(s, i, WordChars)))
    else if i + 1 < |s| && IsSpace(s[i]) && IsSpace(s[i + 1]) then
      Some(Token(WideSpace, i, RunEnd(s, i, SpaceChars)))
    else if s[i] == '\n' then Some(Token(Newline, i, i + 1))
    else if s[i] == '\r' then Some(Token(CarriageReturn, i, i + 1))
    else if s[i] == '\t' then Some(Token(Tab, i, i + 1))
    else None
  }

  /** `std::regex_search` from position `i`: the leftmost position with a match wins. */
  function NextMatch(s: string, i: nat): (m: Option<Token>)
    requires i <= |s|
    ensures m.Some? ==> i <= m.value.start < m.value.end <= |s| && MatchAt(s, m.value.start) == m
    ensures m.Some? ==> forall p :: i <= p < m.value.start ==> MatchAt(s, p).None?
    ensures m.None? ==> forall p :: i <= p < |s| ==> MatchAt(s, p).None?
    decreases |s| - i
  {
    if i == |s| then None
    else if MatchAt(s, i).Some? then MatchAt(s, i)
    else NextMatch(s, i + 1)
  }

  /** The matches of the search loop from position `i` on, in the order it finds them. */
  function Scan(s: string, i: nat): (ts: seq<Token>)
    requires i <= |s|
    ensures forall k :: 0 <= k < |ts| ==> i <= ts[k].start < ts[k].end <= |s|
    ensures Ordered(ts)
    decreases |s| - i
  {
    match NextMatch(s, i)
    case None => []
    case Some(t) => [t] + Scan(s, t.end)
  }

  function Tokenize(s: string): seq<Token> {
    Scan(s, 0)
  }

  // ---------------------------------------------------------------------------
  // A position-by-position description of what the scanner covers.
  // ---------------------------------------------------------------------------

  predicate HasSpaceNeighbour(s: string, p: nat)
    requires p < |s|
  {
    (p > 0 && IsSpace(s[p - 1])) || (p + 1 < |s| && IsSpace(s[p + 1]))
  }

  /** No alternative of the pattern can cover position `p`: it is not a word character,
      not a newline, carriage return or tab, and not a whitespace character next to
      another whitespace character.  Punctuation and a lone space are dropped. */
  predicate Dropped(s: string, p: nat)
    requires p < |s|
  {
    && !IsWordChar(s[p])
    && !IsLineControl(s[p])
    && !(IsSpace(s[p]) && HasSpaceNeighbour(s, p))
  }

  predicate Covered(ts: seq<Token>, p: nat) {
    exists k :: 0 <= k < |ts| && ts[k].start <= p < ts[k].end
  }

  predicate IsMaximalRun(s: string, t: Token, cls: CharClass)
    requires t.start < t.end <= |s|
  {
    && (forall k :: t.start <= k < t.end ==> InClass(s[k], cls))
    && (t.start == 0 || !InClass(s[t.start - 1], cls))
    && (t.end == |s| || !InClass(s[t.end], cls))
  }

  predicate IsIsolated(s: string, t: Token, c: char)
    requires t.start < t.end <= |s|
  {
    t.end == t.start + 1 && s[t.start] == c && !HasSpaceNeighbour(s, t.start)
  }

  /** What a token of each kind is: a maximal word run, a maximal whitespace run of at
      least two characters, or a single newline, carriage return or tab with no
      whitespace on either side. */
  predicate Classified(s: string, t: Token)
    requires t.start < t.end <= |s|
  {
    match t.kind
    case Word => IsMaximalRun(s, t, WordChars)
    case WideSpace => t.end - t.start >= 2 && IsMaximalRun(s, t, SpaceChars)
    case Newline => IsIsolated(s, t, '\n')
    case CarriageReturn => IsIsolated(s, t, '\r')
    case Tab => IsIsolated(s, t, '\t')
  }

  /** Position `i` does not split a word run or a whitespace run. */
  predicate Boundary(s: string, i: nat) {
    0 < i < |s| ==>
      !(IsWordChar(s[i - 1]) && IsWordChar(s[i])) && !(IsSpace(s[i - 1]) && IsSpace(s[i]))
  }

  lemma MatchAtClassified(s: string, i: nat)
    requires i < |s| && Boundary(s, i) && MatchAt(s, i).Some?
    ensures Classified(s, MatchAt(s, i).value)
    ensures Boundary(s, MatchAt(s, i).value.end)
    ensures forall p :: i <= p < MatchAt(s, i).value.end ==> !Dropped(s, p)
  {
    var t := MatchAt(s, i).value;
    if t.kind == WideSpace {
      forall p | i <= p < t.end
        ensures !Dropped(s, p)
      {
        if p + 1 < t.end {
          assert IsSpace(s[p + 1]);
        } else {
          assert IsSpace(s[p - 1]);
        }
      }
    }
  }

  lemma NoMatchIsDropped(s: string, i: nat)
    requires i < |s| && Boundary(s, i) && MatchAt(s, i).None?
    ensures Dropped(s, i)
    ensures Boundary(s, i + 1)
  {
  }

  lemma {:induction false} SkippedPositionsAreDropped(s: string, i: nat)
    requires i <= |s| && Boundary(s, i)
    ensures NextMatch(s, i).Some? ==>
      Boundary(s, NextMatch(s, i).value.start) &&
      forall p :: i <= p < NextMatch(s, i).value.start ==> Dropped(s, p)
    ensures NextMatch(s, i).None? ==> forall p :: i <= p < |s| ==> Dropped(s, p)
    decreases |s| - i
  {
    if i < |s| && MatchAt(s, i).None? {
      NoMatchIsDropped(s, i);
      SkippedPositionsAreDropped(s, i + 1);
    }
  }

  lemma CoveredCons(t: Token, ts: seq<Token>, p: nat)
    ensures Covered([t] + ts, p) <==> (t.start <= p < t.end || Covered(ts, p))
  {
    assert ([t] + ts)[0] == t;
    if Covered(ts, p) {
      var k :| 0 <= k < |ts| && ts[k].start <= p < ts[k].end;
      assert ([t] + ts)[k + 1] == ts[k];
    }
    if Covered([t] + ts, p) {
      var k :| 0 <= k < |[t] + ts| && ([t] + ts)[k].start <= p < ([t] + ts)[k].end;
      if k > 0 {
        assert ts[k - 1] == ([t] + ts)[k];
      }
    }
  }

  /** The tokens from position `i` on are classified, and they cover exactly the
      positions that are not dropped. */
  lemma {:induction false} ScanCharacterization(s: string, i: nat)
    requires i <= |s| && Boundary(s, i)
    ensures forall k :: 0 <= k < |Scan(s, i)| ==> Classified(s, Scan(s, i)[k])
    ensures forall p :: i <= p < |s| ==> (Covered(Scan(s, i), p) <==> !Dropped(s, p))
    decreases |s| - i
  {
    SkippedPositionsAreDropped(s, i);
    match NextMatch(s, i)
    case None =>
    case Some(t) =>
      MatchAtClassified(s, t.start);
      ScanCharacterization(s, t.end);
      var rest := Scan(s, t.end);
      assert Scan(s, i) == [t] + rest;
      forall k | 0 <= k < |Scan(s, i)|
        ensures Classified(s, Scan(s, i)[k])
      {
        if k > 0 {
          assert Scan(s, i)[k] == rest[k - 1];
        }
      }
      forall p | i <= p < |s|
        ensures Covered(Scan(s, i), p) <==> !Dropped(s, p)
      {
        CoveredCons(t, rest, p);
      }
  }

  /** The whole input: tokens come out left to right without overlapping, each is one
      of the pattern's alternatives in maximal form, and a position lies inside some
      token exactly when it is not dropped. */
  lemma TokenizeCharacterization(s: string)
    ensures InBounds(s, Tokenize(s)) && Ordered(Tokenize(s))
    ensures forall k :: 0 <= k < |Tokenize(s)| ==> Classified(s, Tokenize(s)[k])
    ensures forall p :: 0 <= p < |s| ==> (Covered(Tokenize(s), p) <==> !Dropped(s, p))
  {
    ScanCharacterization(s, 0);
  }

  /** Token texts consist of word characters and whitespace only. */
  lemma TokensHoldOnlyWordAndSpaceChars(s: string)
    ensures forall k :: 0 <= k < |Tokenize(s)| ==>
      forall x :: x in Text(s, Tokenize(s)[k]) ==> IsWordChar(x) || IsSpace(x)
  {
    var ts := Tokenize(s);
    ScanCharacterization(s, 0);
    forall k | 0 <= k < |ts|
      ensures forall x :: x in Text(s, ts[k]) ==> IsWordChar(x) || IsSpace(x)
    {
      assert Classified(s, ts[k]);
      forall x | x in Text(s, ts[k])
        ensures IsWordChar(x) || IsSpace(x)
      {
        var j :| 0 <= j < |Text(s, ts[k])| && Text(s, ts[k])[j] == x;
        assert s[ts[k].start + j] == x;
      }
    }
  }

  // ---------------------------------------------------------------------------
  // The description determines the tokens.
  // ---------------------------------------------------------------------------

  /** `ts` is a tokenization of `s` from position `i` on in the sense of
      `TokenizeCharacterization`. */
  predicate DescribesFrom(s: string, i: nat, ts: seq<Token>) {
    && InBounds(s, ts) && Ordered(ts)
    && (|ts| > 0 ==> i <= ts[0].start)
    && (forall k :: 0 <= k < |ts| ==> Classified(s, ts[k]))
    && (forall p :: i <= p < |s| ==> (Covered(ts, p) <==> !Dropped(s, p)))
  }

  lemma {:induction false} OrderedStartsAfterFirst(ts: seq<Token>, k: nat)
    requires Ordered(ts) && 0 < k < |ts|
    requires forall j :: 0 <= j < |ts| ==> ts[j].start < ts[j].end
    ensures ts[0].end <= ts[k].start
  {
    if k > 1 {
      OrderedStartsAfterFirst(ts, k - 1);
    }
  }

  /** A run end is determined by its defining property; a corollary of `RunEnd`'s
      contract. */
  lemma RunEndIsUnique(s: string, i: nat, e: nat, cls: CharClass)
    requires i <= e <= |s|
    requires forall k :: i <= k < e ==> InClass(s[k], cls)
    requires e == |s| || !InClass(s[e], cls)
    ensures RunEnd(s, i, cls) == e
  {
  }

  lemma DroppedHasNoMatch(s: string, p: nat)
    requires p < |s| && Dropped(s, p)
    ensures MatchAt(s, p).None?
  {
  }

  /** A classified token is exactly the match the pattern finds at its start. */
  lemma ClassifiedIsMatch(s: string, t: Token)
    requires t.start < t.end <= |s| && Classified(s, t)
    ensures MatchAt(s, t.start) == Some(t)
  {
    match t.kind
    case Word => RunEndIsUnique(s, t.start, t.end, WordChars);
    case WideSpace =>
      assert IsSpace(s[t.start]) && IsSpace(s[t.start + 1]);
      RunEndIsUnique(s, t.start, t.end, SpaceChars);
    case _ =>
  }

  /** The first position with a match decides the search; a corollary of
      `NextMatch`'s contract. */
  lemma NextMatchIsLeftmost(s: string, i: nat, p: nat)
    requires i <= p < |s| && MatchAt(s, p).Some?
    requires forall q :: i <= q < p ==> MatchAt(s, q).None?
    ensures NextMatch(s, i) == MatchAt(s, p)
  {
  }

  lemma {:induction false} DescriptionDeterminesScan(s: string, i: nat, ts: seq<Token>)
    requires i <= |s| && DescribesFrom(s, i, ts)
    ensures ts == Scan(s, i)
    decreases |s| - i
  {
    if |ts| == 0 {
      forall p | i <= p < |s|
        ensures MatchAt(s, p).None?
      {
        DroppedHasNoMatch(s, p);
      }
    } else {
      var t := ts[0];
      var rest := ts[1..];
      assert ts == [t] + rest;
      forall q | i <= q < t.start
        ensures MatchAt(s, q).None?
      {
        forall k | 0 < k < |ts|
          ensures q < ts[k].start
        {
          OrderedStartsAfterFirst(ts, k);
        }
        assert !Covered(ts, q);
        DroppedHasNoMatch(s, q);
      }
      ClassifiedIsMatch(s, t);
      NextMatchIsLeftmost(s, i, t.start);
      forall p | t.end <= p < |s|
        ensures Covered(rest, p) <==> !Dropped(s, p)
      {
        CoveredCons(t, rest, p);
      }
      if |rest| > 0 {
        assert rest[0] == ts[1];
      }
      assert DescribesFrom(s, t.end, rest);
      DescriptionDeterminesScan(s, t.end, rest);
    }
  }

  /** The description of `TokenizeCharacterization` has exactly one solution: any
      sequence of ordered, classified tokens that covers precisely the positions that
      are not dropped is the scanner's output. */
  lemma TokenizationIsUnique(s: string, ts: seq<Token>)
    requires InBounds(s, ts) && Ordered(ts)
    requires forall k :: 0 <= k < |ts| ==> Classified(s, ts[k])
    requires forall p :: 0 <= p < |s| ==> (Covered(ts, p) <==> !Dropped(s, p))
    ensures ts == Tokenize(s)
  {
    DescriptionDeterminesScan(s, 0, ts);
  }

  /** `"Hello   world\n"` gives a word, a run of three spaces, a word, and a newline. */
  lemma HelloWorldTokens()
    ensures Tokenize("Hello   world\n") ==
      [Token(Word, 0, 5), Token(WideSpace, 5, 8), Token(Word, 8, 13), Token(Newline, 13, 14)]
  {
    var s := "Hello   world\n";
    RunEndIsUnique(s, 0, 5, WordChars);
    RunEndIsUnique(s, 5, 8, SpaceChars);
    RunEndIsUnique(s, 8, 13, WordChars);
    assert MatchAt(s, 0) == Some(Token(Word, 0, 5));
    assert MatchAt(s, 5) == Some(Token(WideSpace, 5, 8));
    assert MatchAt(s, 8) == Some(Token(Word, 8, 13));
    assert MatchAt(s, 13) == Some(Token(Newline, 13, 14));
    assert Scan(s, 14) == [];
    assert Scan(s, 13) == [Token(Newline, 13, 14)];
    assert Scan(s, 8) == [Token(Word, 8, 13), Token(Newline, 13, 14)];
    assert Scan(s, 5) == [Token(WideSpace, 5, 8), Token(Word, 8, 13), Token(Newline, 13, 14)];
  }

}
