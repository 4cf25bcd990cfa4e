/** The document: its text form, the file parser and the flusher. */
module Document {
  import opened Text

  datatype Sentence = Sentence(words: seq<string>, delim: char)

  type Doc = seq<Sentence>

  // ---------- parsing ----------

  /** The parser between two characters: closed sentences, words of the open one, the open word. */
  datatype Parsing = Parsing(closed: Doc, words: seq<string>, word: string) {
    function Words(): seq<string> {
      if word == "" then words else words + [word]
    }
  }

  function Feed(p: Parsing, c: char): Parsing {
    if IsPunct(c) || c == '\n' then Parsing(p.closed + [Sentence(p.Words(), c)], [], "")
    else if IsSpace(c) then Parsing(p.closed, p.Words(), "")
    else Parsing(p.closed, p.words, p.word + [c])
  }

  function FeedAll(p: Parsing, text: string): Parsing
    decreases text
  {
    if text == "" then p else FeedAll(Feed(p, text[0]), text[1..])
  }

  function Finish(p: Parsing): Doc {
    p.closed + [Sentence(p.Words(), ' ')]
  }

  const START := Parsing([], [], "")

  function Parse(text: string): Doc {
    Finish(FeedAll(START, text))
  }

  // ---------- flushing ----------

  function Tail(delim: char, last: bool): string {
    if delim == '\n' then "\n" else if delim != ' ' || !last then [delim, ' '] else ""
  }

  function Flush(d: Doc): string {
    if d == [] then "" else Join(d[0].words) + Tail(d[0].delim, |d| == 1) + Flush(d[1..])
  }

  // ---------- the shape of documents ----------

  predicate IsWords(ws: seq<string>) {
    forall w | w in ws :: IsWord(w)
  }

  /** What commits keep: real words, and only the last sentence may lack a real delimiter. */
  predicate WellFormed(d: Doc) {
    forall i | 0 <= i < |d| ::
      IsWords(d[i].words) && (IsDelim(d[i].delim) || (i == |d| - 1 && d[i].delim == ' '))
  }

  /** What every commit keeps: words without delimiters, and the same for the sentences' ends. */
  predicate Shaped(d: Doc) {
    forall i | 0 <= i < |d| ::
      && (forall w | w in d[i].words :: DelimFree(w))
      && (IsDelim(d[i].delim) || (i == |d| - 1 && d[i].delim == ' '))
  }

  /** The document with its words as the parser reads them. */
  function Reread(d: Doc): Doc {
    seq(|d|, i requires 0 <= i < |d| => Sentence(Pieces(d[i].words), d[i].delim))
  }

  /** What the parser yields: well-formed and closed by the sentence with delimiter ' '. */
  predicate NormalForm(d: Doc) {
    WellFormed(d) && d != [] && d[|d| - 1].delim == ' '
  }

  /** The document with the closing sentence the parser always adds. */
  function Closed(d: Doc): Doc {
    if d != [] && d[|d| - 1].delim == ' ' then d else d + [Sentence([], ' ')]
  }

  function WordsOf(d: Doc): seq<string> {
    if d == [] then [] else d[0].words + WordsOf(d[1..])
  }

  lemma {:induction false} WordsOfConcat(a: Doc, b: Doc)
    ensures WordsOf(a + b) == WordsOf(a) + WordsOf(b)
  {
    if a == [] {
      assert a + b == b;
    } else {
      assert (a + b)[1..] == a[1..] + b;
      WordsOfConcat(a[1..], b);
    }
  }

  lemma WordsOfClosed(d: Doc)
    ensures WordsOf(Closed(d)) == WordsOf(d)
  {
    WordsOfConcat(d, [Sentence([], ' ')]);
  }

  // ---------- parse after flush ----------

  lemma {:induction false} FeedAllConcat(p: Parsing, a: string, b: string)
    ensures FeedAll(p, a + b) == FeedAll(FeedAll(p, a), b)
    decreases a
  {
    if a == "" {
      assert a + b == b;
    } else {
      assert (a + b)[1..] == a[1..] + b;
      FeedAllConcat(Feed(p, a[0]), a[1..], b);
    }
  }

  lemma {:induction false} FeedWord(p: Parsing, w: string)
    requires NoMarks(w)
    ensures FeedAll(p, w) == p.(word := p.word + w)
    decreases w
  {
    if w == "" {
      assert p.word + w == p.word;
    } else {
      assert w[0] in w;
      FeedWord(Feed(p, w[0]), w[1..]);
      assert p.word + [w[0]] + w[1..] == p.word + w;
    }
  }

  /** The parser on text without delimiters: nothing is closed, the words are its pieces. */
  lemma {:induction false} FeedPlain(p: Parsing, t: string)
    requires forall c | c in t :: !IsDelim(c)
    ensures FeedAll(p, t).closed == p.closed
    ensures FeedAll(p, t).Words() == p.words + PiecesFrom(t, p.word)
    decreases t
  {
    if t == "" {
      assert p.words + [] == p.words;
    } else {
      assert t[0] in t;
      FeedPlain(Feed(p, t[0]), t[1..]);
      if IsSpace(t[0]) {
        Assoc(p.words, if p.word == "" then [] else [p.word], PiecesFrom(t[1..], ""));
        assert p.words + [] == p.words;
      }
    }
  }

  lemma {:induction false} JoinDelimFree(words: seq<string>)
    requires forall w | w in words :: DelimFree(w)
    ensures forall c | c in Join(words) :: !IsDelim(c)
  {
    if words != [] {
      assert words[0] in words;
      JoinDelimFree(words[1..]);
    }
  }

  /** After the joined words of a sentence, the parser holds their pieces. */
  lemma FeedWords(closed: Doc, words: seq<string>)
    requires forall w | w in words :: DelimFree(w)
    ensures var p := FeedAll(Parsing(closed, [], ""), Join(words)); p.closed == closed && p.Words() == Pieces(words)
  {
    JoinDelimFree(words);
    FeedPlain(Parsing(closed, [], ""), Join(words));
    PiecesOfJoin(words);
    assert [] + Pieces(words) == Pieces(words);
  }

  lemma FeedSentence(closed: Doc, s: Sentence, last: bool)
    requires (forall w | w in s.words :: DelimFree(w)) && IsDelim(s.delim)
    ensures FeedAll(Parsing(closed, [], ""), Join(s.words) + Tail(s.delim, last))
         == Parsing(closed + [Sentence(Pieces(s.words), s.delim)], [], "")
  {
    var start := Parsing(closed, [], "");
    var p := FeedAll(start, Join(s.words));
    FeedWords(closed, s.words);
    FeedAllConcat(start, Join(s.words), Tail(s.delim, last));
    assert Feed(p, s.delim) == Parsing(closed + [Sentence(Pieces(s.words), s.delim)], [], "");
    if s.delim == '\n' {
      assert FeedAll(p, "\n") == Feed(p, '\n');
    } else {
      FeedAllConcat(p, [s.delim], [' ']);
      assert [s.delim] + [' '] == [s.delim, ' '];
    }
  }

  lemma {:induction false} FeedFlush(closed: Doc, d: Doc)
    requires Shaped(d)
    ensures Finish(FeedAll(Parsing(closed, [], ""), Flush(d))) == closed + Closed(Reread(d))
    decreases d
  {
    var start := Parsing(closed, [], "");
    if d == [] {
    } else if d[0].delim == ' ' {
      FeedLast(closed, d);
    } else {
      var first := Sentence(Pieces(d[0].words), d[0].delim);
      FeedSentence(closed, d[0], |d| == 1);
      FeedAllConcat(start, Join(d[0].words) + Tail(d[0].delim, |d| == 1), Flush(d[1..]));
      FeedFlush(closed + [first], d[1..]);
      ClosedFirst(closed, d);
    }
  }

  lemma ClosedFirst(closed: Doc, d: Doc)
    requires d != [] && d[0].delim != ' '
    ensures var first := Sentence(Pieces(d[0].words), d[0].delim);
            closed + [first] + Closed(Reread(d[1..])) == closed + Closed(Reread(d))
  {
    var first := Sentence(Pieces(d[0].words), d[0].delim);
    assert Reread(d) == [first] + Reread(d[1..]);
    ClosedCons(first, Reread(d[1..]));
    Assoc(closed, [first], Closed(Reread(d[1..])));
  }

  lemma ClosedCons(s: Sentence, d: Doc)
    requires s.delim != ' '
    ensures Closed([s] + d) == [s] + Closed(d)
  {
    Assoc([s], d, [Sentence([], ' ')]);
  }

  lemma FeedLast(closed: Doc, d: Doc)
    requires |d| == 1 && (forall w | w in d[0].words :: DelimFree(w)) && d[0].delim == ' '
    ensures Finish(FeedAll(Parsing(closed, [], ""), Flush(d))) == closed + Reread(d)
  {
    FeedWords(closed, d[0].words);
    assert d[1..] == [] && d == [Sentence(d[0].words, ' ')];
    assert Flush(d) == Join(d[0].words);
    assert Reread(d) == [Sentence(Pieces(d[0].words), ' ')];
  }

  /** Writing any document of commits and reading it back splits its words where the parser sees white
      space, and adds the closing sentence. */
  lemma ParseFlushShaped(d: Doc)
    requires Shaped(d)
    ensures Parse(Flush(d)) == Closed(Reread(d))
  {
    FeedFlush([], d);
    assert [] + Closed(Reread(d)) == Closed(Reread(d));
  }

  lemma WellFormedIsShaped(d: Doc)
    requires WellFormed(d)
    ensures Shaped(d) && Reread(d) == d
  {
    forall i | 0 <= i < |d|
      ensures (forall w | w in d[i].words :: DelimFree(w)) && Pieces(d[i].words) == d[i].words
    {
      PiecesOfWords(d[i].words);
    }
  }

  /** Writing a well-formed document and reading it back only adds the closing sentence. */
  lemma ParseFlush(d: Doc)
    requires WellFormed(d)
    ensures Parse(Flush(d)) == Closed(d)
  {
    WellFormedIsShaped(d);
    ParseFlushShaped(d);
  }

  lemma {:induction false} WordsOfReread(d: Doc)
    ensures WordsOf(Reread(d)) == Pieces(WordsOf(d))
  {
    if d != [] {
      WordsOfReread(d[1..]);
      assert Reread(d)[1..] == Reread(d[1..]);
      PiecesConcat(d[0].words, WordsOf(d[1..]));
    }
  }

  // ---------- the parser's image ----------

  predicate ParsingOk(p: Parsing) {
    && (forall s | s in p.closed :: IsWords(s.words) && IsDelim(s.delim))
    && IsWords(p.words)
    && NoMarks(p.word)
  }

  lemma {:induction false} FeedAllOk(p: Parsing, text: string)
    requires ParsingOk(p)
    ensures ParsingOk(FeedAll(p, text))
    decreases text
  {
    if text != "" {
      assert ParsingOk(Feed(p, text[0]));
      FeedAllOk(Feed(p, text[0]), text[1..]);
    }
  }

  lemma ParseIsNormal(text: string)
    ensures NormalForm(Parse(text))
  {
    FeedAllOk(START, text);
  }

  /** The round trip holds exactly on the parser's normal forms. */
  lemma RoundTripIffNormal(d: Doc)
    ensures Parse(Flush(d)) == d <==> NormalForm(d)
  {
    if NormalForm(d) {
      ParseFlush(d);
    }
    ParseIsNormal(Flush(d));
  }

  /** Writing a document and reading it back only adds the closing sentence, exactly for well-formed
      documents. */
  lemma ParseFlushIff(d: Doc)
    ensures Parse(Flush(d)) == Closed(d) <==> WellFormed(d)
  {
    ParseIsNormal(Flush(d));
    assert forall i | 0 <= i < |d| :: Closed(d)[i] == d[i];
    if WellFormed(d) {
      ParseFlush(d);
    }
  }

  /** Re-flushing a parsed file changes nothing a reader of the file can see. */
  lemma ParseFlushParse(text: string)
    ensures Parse(Flush(Parse(text))) == Parse(text)
  {
    ParseIsNormal(text);
    RoundTripIffNormal(Parse(text));
  }

  // ---------- parsing loses no text ----------

  /** The visible characters a document carries, in order. */
  function Letters(d: Doc): string {
    if d == [] then "" else
      Concat(d[0].words) + (if IsPunct(d[0].delim) then [d[0].delim] else "") + Letters(d[1..])
  }

  lemma {:induction false} LettersConcat(a: Doc, b: Doc)
    ensures Letters(a + b) == Letters(a) + Letters(b)
  {
    if a == [] {
      assert a + b == b;
    } else {
      assert (a + b)[1..] == a[1..] + b;
      LettersConcat(a[1..], b);
    }
  }

  lemma {:induction false} ConcatConcat(a: seq<string>, b: seq<string>)
    ensures Concat(a + b) == Concat(a) + Concat(b)
  {
    if a == [] {
      assert a + b == b;
    } else {
      assert (a + b)[1..] == a[1..] + b;
      ConcatConcat(a[1..], b);
    }
  }

  function Ink(p: Parsing): string {
    Letters(p.closed) + Concat(p.words) + p.word
  }

  lemma WordsInk(p: Parsing)
    ensures Concat(p.Words()) == Concat(p.words) + p.word
  {
    if p.word != "" {
      ConcatConcat(p.words, [p.word]);
      assert Concat([p.word]) == p.word + Concat([]);
    }
  }

  lemma CloseInk(p: Parsing, c: char)
    ensures Letters(p.closed + [Sentence(p.Words(), c)]) == Ink(p) + (if IsPunct(c) then [c] else "")
  {
    var mark := if IsPunct(c) then [c] else "";
    LettersConcat(p.closed, [Sentence(p.Words(), c)]);
    LettersOne(Sentence(p.Words(), c));
    WordsInk(p);
    Assoc(Letters(p.closed), Concat(p.words), p.word);
    Assoc(Letters(p.closed), Concat(p.words) + p.word, mark);
  }

  lemma LettersOne(s: Sentence)
    ensures Letters([s]) == Concat(s.words) + (if IsPunct(s.delim) then [s.delim] else "")
  {
    assert [s][1..] == [];
  }

  lemma FeedInk(p: Parsing, c: char)
    ensures Ink(Feed(p, c)) == Ink(p) + (if IsSpace(c) then "" else [c])
  {
    if IsPunct(c) || c == '\n' {
      CloseInk(p, c);
    } else if IsSpace(c) {
      WordsInk(p);
      Assoc(Letters(p.closed), Concat(p.words), p.word);
    } else {
      Assoc(Letters(p.closed) + Concat(p.words), p.word, [c]);
    }
  }

  lemma {:induction false} FeedAllInk(p: Parsing, text: string)
    ensures Ink(FeedAll(p, text)) == Ink(p) + Visible(text)
    decreases text
  {
    if text != "" {
      FeedInk(p, text[0]);
      FeedAllInk(Feed(p, text[0]), text[1..]);
    }
  }

  /** The parser keeps every visible character of the file, in order. */
  lemma ParseKeepsText(text: string)
    ensures Letters(Parse(text)) == Visible(text)
  {
    var p := FeedAll(START, text);
    FeedAllInk(START, text);
    CloseInk(p, ' ');
  }
}
