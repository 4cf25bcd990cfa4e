/** The word and character counts a storage server reports for a file. */
module Stats {
  import opened Text
  import opened Document

  /** Transitions from white space into a word; `inWord` is the scanner's flag. */
  function Transitions(text: string, inWord: bool): nat
    decreases text
  {
    if text == "" then 0
    else if IsSpace(text[0]) then Transitions(text[1..], false)
    else (if inWord then 0 else 1) + Transitions(text[1..], true)
  }

  /** Sentences that are nothing but a punctuation mark. */
  function LoneMarks(d: Doc): nat {
    if d == [] then 0
    else (if d[0].words == [] && IsPunct(d[0].delim) then 1 else 0) + LoneMarks(d[1..])
  }

  /** The scanner loop over the bytes of the file. */
  method Scan(text: string) returns (wordCount: nat, charCount: nat)
    ensures wordCount == Transitions(text, false)
    ensures charCount == |text|
  {
    wordCount, charCount := 0, 0;
    var inWord := false;
    while charCount < |text|
      invariant charCount <= |text|
      invariant wordCount + Transitions(text[charCount..], inWord) == Transitions(text, false)
    {
      var c := text[charCount];
      assert text[charCount..][1..] == text[charCount + 1..];
      charCount := charCount + 1;
      if IsSpace(c) {
        inWord := false;
      } else if !inWord {
        wordCount := wordCount + 1;
        inWord := true;
      }
    }
  }

  lemma {:induction false} ScanRun(run: string, rest: string, inWord: bool)
    requires forall c | c in run :: !IsSpace(c)
    ensures Transitions(run + rest, inWord)
         == if run == "" then Transitions(rest, inWord) else (if inWord then 0 else 1) + Transitions(rest, true)
    decreases run
  {
    if run == "" {
      assert run + rest == rest;
    } else {
      assert run[0] in run;
      assert (run + rest)[1..] == run[1..] + rest;
      ScanRun(run[1..], rest, true);
    }
  }

  lemma {:induction false} ScanWords(words: seq<string>, rest: string)
    requires IsWords(words) && words != []
    ensures Transitions(Join(words) + rest, false) == |words| + Transitions(rest, true)
    decreases words
  {
    assert words[0] in words;
    if |words| == 1 {
      ScanRun(words[0], rest, false);
    } else {
      var more := Join(words[1..]) + rest;
      assert Join(words) + rest == words[0] + (" " + more);
      ScanRun(words[0], " " + more, false);
      assert (" " + more)[1..] == more;
      ScanWords(words[1..], rest);
    }
  }

  lemma ScanTail(delim: char, last: bool, rest: string, inWord: bool)
    requires IsDelim(delim)
    ensures Transitions(Tail(delim, last) + rest, inWord)
         == (if IsPunct(delim) && !inWord then 1 else 0) + Transitions(rest, false)
  {
    if IsPunct(delim) {
      ScanRun([delim], " " + rest, inWord);
      assert Tail(delim, last) + rest == [delim] + (" " + rest);
      assert (" " + rest)[1..] == rest;
    } else {
      assert ("\n" + rest)[1..] == rest;
    }
  }

  /** The reported word count of a flushed document: its words, and one more for every sentence
      that is only a punctuation mark. */
  lemma {:induction false} ScanOfFlush(d: Doc)
    requires WellFormed(d)
    ensures Transitions(Flush(d), false) == |WordsOf(d)| + LoneMarks(d)
    decreases d
  {
    if d != [] {
      var s, last, rest := d[0], |d| == 1, Flush(d[1..]);
      ScanOfFlush(d[1..]);
      assert Flush(d) == Join(s.words) + (Tail(s.delim, last) + rest);
      if s.words != [] {
        ScanWords(s.words, Tail(s.delim, last) + rest);
      }
      if s.delim != ' ' {
        ScanTail(s.delim, last, rest, s.words != []);
        assert s.words == [] ==> Flush(d) == Tail(s.delim, last) + rest;
      } else {
        assert Tail(s.delim, last) + rest == "";
      }
    }
  }
}
