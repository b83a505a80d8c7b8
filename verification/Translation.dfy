/** `Translator::translate_sentence` and `Translator::translate_file`
    (src/Translator.cpp:8-40).  Each regex match is looked up in the dictionary, the
    replacement or the match itself is appended, and then the separator test runs on the
    last character of the result.  That test is an OR of `!=` against four different
    characters, so it always holds and every token is followed by exactly one space. */
module Translation {
  import opened Options
  import opened DictionaryStore
  import opened Tokenizer

  /** The translator object: its only state is the dictionary it looks words up in. */
  datatype Translator = Translator(dictionary: Dictionary)

  /** `set_dictionary`: the new mapping replaces the old one as a whole. */
  function SetDictionary(tr: Translator, d: Dictionary): (r: Translator)
    ensures forall w :: Lookup(r.dictionary, w) == Lookup(d, w)
  {
    Translator(d)
  }

  /** The replacement of a token if its text is a key, the token's text otherwise. */
  function Piece(d: Dictionary, s: string, t: Token): string
    requires t.start <= t.end <= |s|
  {
    match Lookup(d, Text(s, t))
    case Some(v) => v
    case None => Text(s, t)
  }

  function Pieces(d: Dictionary, s: string, ts: seq<Token>): (ps: seq<string>)
    requires InBounds(s, ts)
    ensures |ps| == |ts|
  {
    if |ts| == 0 then []
    else Pieces(d, s, ts[..|ts| - 1]) + [Piece(d, s, ts[|ts| - 1])]
  }

  /** The texts of the tokens themselves. */
  function Texts(s: string, ts: seq<Token>): (xs: seq<string>)
    requires InBounds(s, ts)
    ensures |xs| == |ts|
  {
    if |ts| == 0 then []
    else Texts(s, ts[..|ts| - 1]) + [Text(s, ts[|ts| - 1])]
  }

  /** The strings joined with one space between neighbours and none at the ends. */
  function SpaceJoined(ps: seq<string>): string {
    if |ps| == 0 then ""
    else if |ps| == 1 then ps[0]
    else SpaceJoined(ps[..|ps| - 1]) + " " + ps[|ps| - 1]
  }

  function TotalLength(ps: seq<string>): nat {
    if |ps| == 0 then 0 else TotalLength(ps[..|ps| - 1]) + |ps[|ps| - 1]|
  }

  /** The separator test as written (src/Translator.cpp:21-24).  Since the four compared
      characters differ, at least three of the `!=` tests are true for any `last`. */
  function AppendsSeparator(last: char): (appended: bool)
    ensures appended
  {
    last != '\n' || last != '\r' || last != '\t' || last != ' '
  }

  /** `result[result.size() - 1]`.  On an empty result (a first token replaced by an
      empty string) the source reads out of range; the value read cannot change the
      outcome of `AppendsSeparator`, so the model reads a NUL there. */
  function LastChar(r: string): char {
    if |r| == 0 then '\0' else r[|r| - 1]
  }

  /** The result after the loop has processed the tokens `ts`, in order. */
  function Render(d: Dictionary, s: string, ts: seq<Token>): string
    requires InBounds(s, ts)
  {
    if |ts| == 0 then ""
    else
      var acc := Render(d, s, ts[..|ts| - 1]) + Piece(d, s, ts[|ts| - 1]);
      if AppendsSeparator(LastChar(acc)) then acc + " " else acc
  }

  /** What `translate_sentence` returns for `text` under dictionary `d`. */
  function Translate(d: Dictionary, text: string): string {
    assert InBounds(text, Tokenize(text));
    Render(d, text, Tokenize(text))
  }

  // ---------------------------------------------------------------------------
  // The shape of a translation.
  // ---------------------------------------------------------------------------

  /** Exactly one space follows every token's piece: the pieces joined by single
      spaces, plus a final space when there was any token. */
  lemma {:induction false} RenderSeparatesEveryToken(d: Dictionary, s: string, ts: seq<Token>)
    requires InBounds(s, ts)
    ensures Render(d, s, ts) == if |ts| == 0 then "" else SpaceJoined(Pieces(d, s, ts)) + " "
  {
    if |ts| > 0 {
      var init := ts[..|ts| - 1];
      var piece := Piece(d, s, ts[|ts| - 1]);
      RenderSeparatesEveryToken(d, s, init);
      var ps := Pieces(d, s, ts);
      assert ps == Pieces(d, s, init) + [piece];
      if |init| > 0 {
        assert ps[..|ps| - 1] == Pieces(d, s, init);
      }
    }
  }

  lemma {:induction false} SpaceJoinedLength(ps: seq<string>)
    requires |ps| > 0
    ensures |SpaceJoined(ps)| == TotalLength(ps) + |ps| - 1
  {
    if |ps| > 1 {
      SpaceJoinedLength(ps[..|ps| - 1]);
    }
  }

  /** A translation is empty exactly when there was no token; otherwise it ends in a
      space, and its length is the pieces' total length plus one space per token. */
  lemma TranslationSeparators(d: Dictionary, text: string)
    ensures Translate(d, text) == "" <==> Tokenize(text) == []
    ensures Translate(d, text) != "" ==> Translate(d, text)[|Translate(d, text)| - 1] == ' '
    ensures InBounds(text, Tokenize(text)) &&
      |Translate(d, text)| == TotalLength(Pieces(d, text, Tokenize(text))) + |Tokenize(text)|
  {
    var ts := Tokenize(text);
    TokenizeCharacterization(text);
    RenderSeparatesEveryToken(d, text, ts);
    if |ts| > 0 {
      SpaceJoinedLength(Pieces(d, text, ts));
    }
  }

  /** Empty input, or input made only of dropped characters (punctuation, lone spaces),
      translates to the empty string, and nothing else does. */
  lemma TranslationEmptyIffAllDropped(d: Dictionary, text: string)
    ensures Translate(d, text) == "" <==> forall p :: 0 <= p < |text| ==> Dropped(text, p)
  {
    var ts := Tokenize(text);
    TokenizeCharacterization(text);
    TranslationSeparators(d, text);
    if |ts| > 0 {
      assert Covered(ts, ts[0].start);
      assert !Dropped(text, ts[0].start);
    } else {
      forall p | 0 <= p < |text|
        ensures Dropped(text, p)
      {
        assert !Covered(ts, p);
      }
    }
  }

  lemma {:induction false} EmptyDictionaryPiecesAreTexts(s: string, ts: seq<Token>)
    requires InBounds(s, ts)
    ensures Pieces(Empty, s, ts) == Texts(s, ts)
  {
    if |ts| > 0 {
      EmptyDictionaryPiecesAreTexts(s, ts[..|ts| - 1]);
    }
  }

  /** With an empty dictionary every token passes through unchanged. */
  lemma EmptyDictionaryPassesThrough(text: string)
    ensures InBounds(text, Tokenize(text))
    ensures Translate(Empty, text) ==
      if Tokenize(text) == [] then "" else SpaceJoined(Texts(text, Tokenize(text))) + " "
  {
    TokenizeCharacterization(text);
    RenderSeparatesEveryToken(Empty, text, Tokenize(text));
    EmptyDictionaryPiecesAreTexts(text, Tokenize(text));
  }

  lemma {:induction false} SpaceJoinedChars(ps: seq<string>, c: char)
    requires c != ' ' && c in SpaceJoined(ps)
    ensures exists i :: 0 <= i < |ps| && c in ps[i]
  {
    if |ps| > 1 {
      var init := ps[..|ps| - 1];
      if c in SpaceJoined(init) {
        SpaceJoinedChars(init, c);
        var i :| 0 <= i < |init| && c in init[i];
        assert ps[i] == init[i];
      } else {
        assert c in ps[|ps| - 1];
      }
    }
  }

  lemma {:induction false} PiecesComeFromTokensOrValues(d: Dictionary, s: string, ts: seq<Token>, i: nat)
    requires InBounds(s, ts) && i < |ts|
    ensures Pieces(d, s, ts)[i] == Piece(d, s, ts[i])
  {
    if i < |ts| - 1 {
      PiecesComeFromTokensOrValues(d, s, ts[..|ts| - 1], i);
    }
  }

  /** A character that is neither a word character nor whitespace, such as punctuation,
      can only reach the output through a dictionary value: the tokens never contain it. */
  lemma ForeignCharsComeFromDictionary(d: Dictionary, text: string, c: char)
    requires !IsWordChar(c) && !IsSpace(c) && c in Translate(d, text)
    ensures exists k :: 0 <= k < |d| && c in d[k].value
  {
    var ts := Tokenize(text);
    assert InBounds(text, ts);
    RenderSeparatesEveryToken(d, text, ts);
    var ps := Pieces(d, text, ts);
    assert c in SpaceJoined(ps) + " ";
    assert c in SpaceJoined(ps);
    SpaceJoinedChars(ps, c);
    var i :| 0 <= i < |ps| && c in ps[i];
    PiecesComeFromTokensOrValues(d, text, ts, i);
    var t := ts[i];
    match Lookup(d, Text(text, t))
    case Some(v) =>
      LookupHitsExactlyOnEquivalentKey(d, Text(text, t));
    case None =>
      TokensHoldOnlyWordAndSpaceChars(text);
  }

  lemma RenderAppend(d: Dictionary, s: string, ts: seq<Token>, t: Token)
    requires InBounds(s, ts) && t.start < t.end <= |s|
    ensures InBounds(s, ts + [t])
    ensures Render(d, s, ts + [t]) == Render(d, s, ts) + Piece(d, s, t) + " "
  {
    assert (ts + [t])[..|ts|] == ts;
  }

  // ---------------------------------------------------------------------------
  // The loops of the source.
  // ---------------------------------------------------------------------------

  /** The loop of `translate_sentence`: search, look the match up with the map's own
      search, append the piece, test the last character, append the space, and search
      again in the rest of the string. */
  method TranslateSentence(tr: Translator, text: string) returns (result: string)
    ensures result == Translate(tr.dictionary, text)
  {
    var d := tr.dictionary;
    ghost var all := Tokenize(text);
    assert InBounds(text, all);
    result := "";
    var pos := 0;
    ghost var n := 0;
    while true
      invariant pos <= |text| && n <= |all|
      invariant Scan(text, pos) == all[n..]
      invariant result == Render(d, text, all[..n])
      decreases |text| - pos
    {
      var m := NextMatch(text, pos);
      if m.None? {
        break;
      }
      var t := m.value;
      assert all[n..] == [t] + Scan(text, t.end);
      assert all[n] == t;
      assert all[n + 1..] == all[n..][1..];
      assert all[..n + 1] == all[..n] + [t];
      var word := text[t.start..t.end];
      var found := Find(d, word);
      var piece := if found.Some? then found.value else word;
      assert piece == Piece(d, text, t);
      RenderAppend(d, text, all[..n], t);
      result := result + piece;
      if AppendsSeparator(LastChar(result)) {
        result := result + " ";
      }
      n := n + 1;
      pos := t.end;
    }
    assert all[..n] == all;
  }

  /** The loop of `translate_file`, over the lines `getline` yields: each line is
      translated and written followed by a newline. */
  method TranslateFile(tr: Translator, lines: seq<string>) returns (written: seq<string>)
    ensures |written| == |lines|
    ensures forall i :: 0 <= i < |lines| ==>
      |written[i]| > 0 && written[i][|written[i]| - 1] == '\n' &&
      written[i][..|written[i]| - 1] == Translate(tr.dictionary, lines[i])
  {
    written := [];
    var i := 0;
    while i < |lines|
      invariant i <= |lines|
      invariant |written| == i
      invariant forall j :: 0 <= j < i ==> written[j] == Translate(tr.dictionary, lines[j]) + "\n"
    {
      var out := TranslateSentence(tr, lines[i]);
      written := written + [out + "\n"];
      i := i + 1;
    }
    forall j | 0 <= j < |lines|
      ensures written[j][..|written[j]| - 1] == Translate(tr.dictionary, lines[j])
    {
      assert written[j] == Translate(tr.dictionary, lines[j]) + "\n";
    }
  }

}
