/** Characters, words and tokens as the storage server's C code classifies them. */
module Text {

  /** The sentence-ending punctuation of the file parser. */
  predicate IsPunct(c: char) {
    c == '.' || c == '!' || c == '?'
  }

  /** The delimiter set `".!?\n"` of the commit's splitter and of the word counter. */
  predicate IsDelim(c: char) {
    IsPunct(c) || c == '\n'
  }

  /** The separators `" \t\r\n"` of the tokeniser. */
  predicate IsBlank(c: char) {
    c == ' ' || c == '\t' || c == '\r' || c == '\n'
  }

  /** `isspace`: the blanks, vertical tab and form feed. */
  predicate IsSpace(c: char) {
    IsBlank(c) || c == '\U{0B}' || c == '\U{0C}'
  }

  /** A word as a sentence holds it: not empty, no white space, no punctuation. */
  predicate IsWord(w: string) {
    w != "" && NoMarks(w)
  }

  predicate NoMarks(w: string) {
    forall c | c in w :: !IsSpace(c) && !IsPunct(c)
  }

  /** A word as a commit may leave it in memory: not empty, no delimiter. It can still hold a vertical
      tab or form feed. */
  predicate DelimFree(w: string) {
    w != "" && forall c | c in w :: !IsDelim(c)
  }

  /** The visible characters of a text, in order. */
  function Visible(s: string): string {
    if s == "" then "" else (if IsSpace(s[0]) then "" else [s[0]]) + Visible(s[1..])
  }

  function Concat(ss: seq<string>): string {
    if ss == [] then "" else ss[0] + Concat(ss[1..])
  }

  /** Words separated by one space each. */
  function Join(ws: seq<string>): string {
    if ws == [] then "" else if |ws| == 1 then ws[0] else ws[0] + " " + Join(ws[1..])
  }

  /** What `strtok_r` yields over the separators " \t\r\n": `w` is the token read so far. */
  function TokensFrom(s: string, w: string): seq<string> {
    if s == "" then (if w == "" then [] else [w])
    else if IsBlank(s[0]) then (if w == "" then [] else [w]) + TokensFrom(s[1..], "")
    else TokensFrom(s[1..], w + [s[0]])
  }

  function Tokens(s: string): seq<string> {
    TokensFrom(s, "")
  }

  /** A token as the tokeniser yields it. */
  predicate IsToken(t: string) {
    t != "" && forall c | c in t :: !IsBlank(c)
  }

  lemma {:induction false} TokensFromAreTokens(s: string, w: string)
    requires forall c | c in w :: !IsBlank(c)
    ensures forall t | t in TokensFrom(s, w) :: IsToken(t)
    decreases s
  {
    if s != "" {
      if IsBlank(s[0]) {
        TokensFromAreTokens(s[1..], "");
      } else {
        TokensFromAreTokens(s[1..], w + [s[0]]);
      }
    }
  }

  /** Every token is non-empty and free of separators. */
  lemma TokensAreTokens(s: string)
    ensures forall t | t in Tokens(s) :: IsToken(t)
  {
    TokensFromAreTokens(s, "");
  }

  /** The characters of a text that are not separators. */
  function NonBlank(s: string): string {
    if s == "" then "" else (if IsBlank(s[0]) then "" else [s[0]]) + NonBlank(s[1..])
  }

  lemma {:induction false} TokensFromKeepText(s: string, w: string)
    ensures Concat(TokensFrom(s, w)) == w + NonBlank(s)
    decreases s
  {
    if s == "" {
      assert Concat([w]) == w + Concat([]);
    } else if IsBlank(s[0]) {
      TokensFromKeepText(s[1..], "");
      var rest := TokensFrom(s[1..], "");
      assert ([w] + rest)[1..] == rest && [] + rest == rest;
      assert NonBlank(s) == NonBlank(s[1..]) && "" + NonBlank(s[1..]) == NonBlank(s[1..]);
    } else {
      TokensFromKeepText(s[1..], w + [s[0]]);
      Assoc(w, [s[0]], NonBlank(s[1..]));
    }
  }

  /** Tokenising loses and reorders nothing but separators. */
  lemma TokensKeepText(s: string)
    ensures Concat(Tokens(s)) == NonBlank(s)
  {
    TokensFromKeepText(s, "");
    assert "" + NonBlank(s) == NonBlank(s);
  }

  lemma {:induction false} TokensFromWord(t: string, rest: string, w: string)
    requires forall c | c in t :: !IsBlank(c)
    ensures TokensFrom(t + rest, w) == TokensFrom(rest, w + t)
    decreases t
  {
    if t == "" {
      assert t + rest == rest && w + t == w;
    } else {
      assert t[0] in t;
      assert (t + rest)[1..] == t[1..] + rest;
      TokensFromWord(t[1..], rest, w + [t[0]]);
      assert w + [t[0]] + t[1..] == w + t;
    }
  }

  /** Tokenising tokens joined by spaces gives them back. */
  lemma {:induction false} TokensOfJoin(toks: seq<string>)
    requires forall t | t in toks :: IsToken(t)
    ensures Tokens(Join(toks)) == toks
  {
    if toks != [] {
      var t := toks[0];
      assert t in toks;
      assert "" + t == t;
      if |toks| == 1 {
        TokensFromWord(t, "", "");
        assert t + "" == t;
      } else {
        var rest := " " + Join(toks[1..]);
        assert Join(toks) == t + rest;
        TokensFromWord(t, rest, "");
        assert rest[1..] == Join(toks[1..]);
        TokensOfJoin(toks[1..]);
      }
    }
  }

  /** Only separators among the white space: no vertical tab or form feed. */
  predicate PlainSpaces(s: string) {
    forall c | c in s :: IsSpace(c) ==> IsBlank(c)
  }

  // ---------- words as the file parser reads them ----------

  /** The words of a text without delimiters: `w` is the word read so far. */
  function PiecesFrom(s: string, w: string): seq<string> {
    if s == "" then (if w == "" then [] else [w])
    else if IsSpace(s[0]) then (if w == "" then [] else [w]) + PiecesFrom(s[1..], "")
    else PiecesFrom(s[1..], w + [s[0]])
  }

  /** The words the parser makes of words in memory. */
  function Pieces(words: seq<string>): seq<string> {
    if words == [] then [] else PiecesFrom(words[0], "") + Pieces(words[1..])
  }

  lemma {:induction false} PiecesSpace(a: string, b: string, w: string)
    ensures PiecesFrom(a + " " + b, w) == PiecesFrom(a, w) + PiecesFrom(b, "")
    decreases a
  {
    var s := a + " " + b;
    if a == "" {
      assert s[0] == ' ' && s[1..] == b;
    } else {
      assert s[0] == a[0] && s[1..] == a[1..] + " " + b;
      PiecesSpace(a[1..], b, if IsSpace(a[0]) then "" else w + [a[0]]);
      if IsSpace(a[0]) {
        Assoc(if w == "" then [] else [w], PiecesFrom(a[1..], ""), PiecesFrom(b, ""));
      }
    }
  }

  lemma {:induction false} PiecesOfJoin(words: seq<string>)
    ensures PiecesFrom(Join(words), "") == Pieces(words)
  {
    if words != [] {
      PiecesOfJoin(words[1..]);
      if |words| == 1 {
        assert words[1..] == [] && PiecesFrom(words[0], "") + [] == PiecesFrom(words[0], "");
      } else {
        PiecesSpace(words[0], Join(words[1..]), "");
      }
    }
  }

  lemma {:induction false} PiecesOfWord(w: string, read: string)
    requires forall c | c in w :: !IsSpace(c)
    ensures PiecesFrom(w, read) == if read + w == "" then [] else [read + w]
    decreases w
  {
    if w == "" {
      assert read + w == read;
    } else {
      assert w[0] in w;
      PiecesOfWord(w[1..], read + [w[0]]);
      assert read + [w[0]] + w[1..] == read + w;
    }
  }

  /** Real words are read back as they are. */
  lemma {:induction false} PiecesOfWords(words: seq<string>)
    requires forall w | w in words :: w != "" && forall c | c in w :: !IsSpace(c)
    ensures Pieces(words) == words
  {
    if words != [] {
      assert words[0] in words && "" + words[0] == words[0];
      PiecesOfWord(words[0], "");
      assert forall w | w in words[1..] :: w in words;
      PiecesOfWords(words[1..]);
      assert words == [words[0]] + words[1..];
    }
  }

  lemma {:induction false} PiecesConcat(a: seq<string>, b: seq<string>)
    ensures Pieces(a + b) == Pieces(a) + Pieces(b)
  {
    if a == [] {
      assert a + b == b;
    } else {
      assert (a + b)[1..] == a[1..] + b;
      PiecesConcat(a[1..], b);
      Assoc(PiecesFrom(a[0], ""), Pieces(a[1..]), Pieces(b));
    }
  }

  lemma Assoc<T>(a: seq<T>, b: seq<T>, c: seq<T>)
    ensures a + b + c == a + (b + c)
  {
  }

  /** `a` is what is left of `b` after deleting some of its elements. */
  ghost predicate Subsequence<T>(a: seq<T>, b: seq<T>) {
    if a == [] then true
    else if b == [] then false
    else (a[0] == b[0] && Subsequence(a[1..], b[1..])) || Subsequence(a, b[1..])
  }

  lemma {:induction false} SubsequenceRefl<T>(a: seq<T>)
    ensures Subsequence(a, a)
  {
    if a != [] {
      SubsequenceRefl(a[1..]);
    }
  }

  lemma {:induction false} SubsequenceSkip<T>(a: seq<T>, b: seq<T>)
    requires b != [] && Subsequence(a, b[1..])
    ensures Subsequence(a, b)
  {
  }

  lemma {:induction false} SubsequenceTrans<T>(a: seq<T>, b: seq<T>, c: seq<T>)
    requires Subsequence(a, b) && Subsequence(b, c)
    ensures Subsequence(a, c)
    decreases |b| + |c|
  {
    if a == [] {
    } else if Subsequence(b, c[1..]) {
      SubsequenceTrans(a, b, c[1..]);
    } else if Subsequence(a, b[1..]) {
      SubsequenceTrans(a, b[1..], c[1..]);
    } else {
      SubsequenceTrans(a[1..], b[1..], c[1..]);
    }
  }

  lemma {:induction false} SubsequenceConcat<T>(a: seq<T>, b: seq<T>, a': seq<T>, b': seq<T>)
    requires Subsequence(a, a') && Subsequence(b, b')
    ensures Subsequence(a + b, a' + b')
    decreases a'
  {
    if a' == [] {
      assert a + b == b && a' + b' == b';
    } else if a != [] && a[0] == a'[0] && Subsequence(a[1..], a'[1..]) {
      SubsequenceConcat(a[1..], b, a'[1..], b');
      assert (a + b)[1..] == a[1..] + b && (a' + b')[1..] == a'[1..] + b';
    } else {
      SubsequenceConcat(a, b, a'[1..], b');
      assert (a' + b')[1..] == a'[1..] + b';
      SubsequenceSkip(a + b, a' + b');
    }
  }

  lemma {:induction false} PiecesMonotone(a: seq<string>, b: seq<string>)
    requires Subsequence(a, b)
    ensures Subsequence(Pieces(a), Pieces(b))
    decreases b
  {
    if a == [] {
    } else if a[0] == b[0] && Subsequence(a[1..], b[1..]) {
      PiecesMonotone(a[1..], b[1..]);
      SubsequenceRefl(PiecesFrom(a[0], ""));
      SubsequenceConcat(PiecesFrom(a[0], ""), Pieces(a[1..]), PiecesFrom(b[0], ""), Pieces(b[1..]));
    } else {
      PiecesMonotone(a, b[1..]);
      SubsequenceConcat([], Pieces(a), PiecesFrom(b[0], ""), Pieces(b[1..]));
      assert [] + Pieces(a) == Pieces(a);
    }
  }
}
