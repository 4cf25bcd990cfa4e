/** What loading and writing a file does to its text, character by character. */
module Tidy {
  import opened Text
  import opened Document

  /** The tidied text: no white space at the start of a sentence or before its end, one space between words,
      one after a punctuation mark, none around a newline. `open`: the sentence has a word; `gap`: white
      space came after it. */
  function Tidied(text: string, open: bool, gap: bool): string
    decreases text
  {
    if text == "" then ""
    else if IsPunct(text[0]) then [text[0], ' '] + Tidied(text[1..], false, false)
    else if text[0] == '\n' then "\n" + Tidied(text[1..], false, false)
    else if IsSpace(text[0]) then Tidied(text[1..], open, open)
    else (if gap then " " else "") + [text[0]] + Tidied(text[1..], true, false)
  }

  /** The text written for sentences that are closed. */
  function ClosedText(d: Doc): string {
    if d == [] then "" else ClosedText(d[..|d| - 1]) + (Join(d[|d| - 1].words) + Tail(d[|d| - 1].delim, false))
  }

  ghost predicate AllClosed(d: Doc) {
    forall s | s in d :: s.delim != ' '
  }

  lemma {:induction false} FlushSnoc(d: Doc, s: Sentence)
    requires AllClosed(d)
    ensures Flush(d + [s]) == ClosedText(d) + (Join(s.words) + Tail(s.delim, true))
    decreases d
  {
    if d == [] {
      assert d + [s] == [s] && [s][1..] == [];
    } else {
      var first := Join(d[0].words) + Tail(d[0].delim, false);
      assert (d + [s])[1..] == d[1..] + [s];
      FlushSnoc(d[1..], s);
      ClosedTextCons(d);
      assert d[0] in d;
      Assoc(first, ClosedText(d[1..]), Join(s.words) + Tail(s.delim, true));
    }
  }

  lemma {:induction false} ClosedTextCons(d: Doc)
    requires d != []
    ensures ClosedText(d) == Join(d[0].words) + Tail(d[0].delim, false) + ClosedText(d[1..])
    decreases d
  {
    var n := |d| - 1;
    var last := Join(d[n].words) + Tail(d[n].delim, false);
    if n == 0 {
      assert d[..0] == [] && d[1..] == [];
    } else {
      ClosedTextCons(d[..n]);
      assert d[..n][1..] == d[1..][..n - 1];
      Assoc(Join(d[0].words) + Tail(d[0].delim, false), ClosedText(d[1..][..n - 1]), last);
    }
  }

  lemma {:induction false} JoinSnoc(ws: seq<string>, w: string)
    ensures Join(ws + [w]) == Join(ws) + (if ws == [] then "" else " ") + w
  {
    if ws == [] {
      assert ws + [w] == [w];
    } else {
      assert (ws + [w])[1..] == ws[1..] + [w];
      JoinSnoc(ws[1..], w);
      if |ws| > 1 {
        var head, gap := ws[0] + " ", Join(ws[1..]) + " ";
        Assoc(head, gap, w);
        Assoc(head, Join(ws[1..]), " ");
      }
    }
  }

  /** What has been read so far, written out. */
  function SoFar(p: Parsing): string {
    ClosedText(p.closed) + Join(p.Words())
  }

  predicate HasGap(p: Parsing) {
    p.word == "" && p.words != []
  }

  /** One character of a word. */
  lemma LetterSoFar(p: Parsing, c: char)
    ensures SoFar(p.(word := p.word + [c])) == SoFar(p) + (if HasGap(p) then " " else "") + [c]
  {
    var p' := p.(word := p.word + [c]);
    JoinSnoc(p.words, p.word + [c]);
    if p.word == "" {
      assert p.word + [c] == [c];
      var gap := if p.words == [] then "" else " ";
      Assoc(ClosedText(p.closed), Join(p.words) + gap, [c]);
      Assoc(ClosedText(p.closed), Join(p.words), gap);
    } else {
      JoinSnoc(p.words, p.word);
      var front := Join(p.words) + if p.words == [] then "" else " ";
      Assoc(front, p.word, [c]);
      Assoc(ClosedText(p.closed), front + p.word, [c]);
      assert SoFar(p) + "" == SoFar(p);
    }
  }

  /** The end of a sentence. */
  lemma EndSoFar(p: Parsing, c: char)
    ensures SoFar(Parsing(p.closed + [Sentence(p.Words(), c)], [], "")) == SoFar(p) + Tail(c, false)
  {
    var d := p.closed + [Sentence(p.Words(), c)];
    assert d[..|d| - 1] == p.closed;
    Assoc(ClosedText(p.closed), Join(p.Words()), Tail(c, false));
    assert ClosedText(d) + "" == ClosedText(d);
  }

  lemma {:induction false} FeedIsTidy(p: Parsing, text: string)
    requires AllClosed(p.closed)
    ensures Flush(Finish(FeedAll(p, text))) == SoFar(p) + Tidied(text, p.Words() != [], HasGap(p))
    decreases text
  {
    if text == "" {
      FlushSnoc(p.closed, Sentence(p.Words(), ' '));
      assert Join(p.Words()) + "" == Join(p.Words()) && SoFar(p) + "" == SoFar(p);
    } else {
      var c, p' := text[0], Feed(p, text[0]);
      FeedIsTidy(p', text[1..]);
      if IsPunct(c) || c == '\n' {
        EndSoFar(p, c);
        Assoc(SoFar(p), Tail(c, false), Tidied(text[1..], false, false));
      } else if !IsSpace(c) {
        LetterSoFar(p, c);
        var gap := if HasGap(p) then " " else "";
        Assoc(SoFar(p), gap, [c]);
        Assoc(SoFar(p), gap + [c], Tidied(text[1..], true, false));
      }
    }
  }

  /** Loading a file and writing it back gives the tidied text, nothing else. */
  lemma LoadThenWrite(text: string)
    ensures Flush(Parse(text)) == Tidied(text, false, false)
  {
    FeedIsTidy(START, text);
    assert "" + Tidied(text, false, false) == Tidied(text, false, false);
  }

  lemma FlushClosed(d: Doc)
    requires WellFormed(d)
    ensures Flush(Closed(d)) == Flush(d)
  {
    if d != [] && d[|d| - 1].delim != ' ' {
      var n := |d| - 1;
      var s := d[n];
      FlushSnoc(d, Sentence([], ' '));
      FlushSnoc(d[..n], s);
      assert d == d[..n] + [s];
      assert Tail(s.delim, true) == Tail(s.delim, false);
      assert ClosedText(d) + "" == ClosedText(d);
    }
  }

  /** What is written for a well-formed document is tidy already. */
  lemma WrittenIsTidy(d: Doc)
    requires WellFormed(d)
    ensures Tidied(Flush(d), false, false) == Flush(d)
  {
    LoadThenWrite(Flush(d));
    ParseFlush(d);
    FlushClosed(d);
  }
}
