/** What a commit does to one sentence: splice the queued edits, split again at the delimiters. */
module Rebuild {
  import opened Text
  import opened Document
  import opened Wrappers

  /** One queued modification: insert `content` at position `index` of the token array. */
  datatype Edit = Edit(index: int, content: string)

  // ---------- tokens ----------

  /** The part of a token before its first delimiter. */
  function Head(t: string): (h: string)
    ensures |h| <= |t|
  {
    if t == "" || IsDelim(t[0]) then "" else [t[0]] + Head(t[1..])
  }

  /** The unbroken run of delimiters a text starts with. */
  function LeadingDelims(t: string): string {
    if t == "" || !IsDelim(t[0]) then "" else [t[0]] + LeadingDelims(t[1..])
  }

  /** The delimiters that end a token's text. */
  function Marks(t: string): string {
    LeadingDelims(t[|Head(t)|..])
  }

  /** What the splitter keeps of a token. */
  function Kept(t: string): string {
    Head(t) + Marks(t)
  }

  /** A run of text followed by a run of delimiters; either may be empty. */
  predicate WellShaped(t: string) {
    forall i, j | 0 <= i < j < |t| :: IsDelim(t[i]) ==> IsDelim(t[j])
  }

  predicate HasText(t: string) {
    exists c | c in t :: !IsDelim(c)
  }

  /** The counter and the splitter agree on the token: it starts with text, or has none. */
  predicate Countable(t: string) {
    t != "" && IsDelim(t[0]) ==> !HasText(t)
  }

  /** What the splitter keeps of the token's text is free of vertical tabs and form feeds, which the
      file parser reads as white space and the tokeniser does not. */
  predicate PlainHead(t: string) {
    PlainSpaces(Head(t))
  }

  // ---------- the splitter ----------

  /** One empty sentence for each delimiter of a run. */
  function EmptySentences(run: string): Doc {
    if run == "" then [] else [Sentence([], run[0])] + EmptySentences(run[1..])
  }

  /** `words` with the text of the token, if it has any, as one more word. */
  function WithHead(words: seq<string>, t: string): seq<string> {
    if Head(t) == "" then words else words + [Head(t)]
  }

  /** The sentences a token with delimiters closes: the one being filled, then empty ones. */
  function Closing(words: seq<string>, t: string): Doc
    requires Marks(t) != ""
  {
    [Sentence(WithHead(words, t), Marks(t)[0])] + EmptySentences(Marks(t)[1..])
  }

  /** The sentences a token array is split into; `words` are those of the sentence being filled. */
  function Split(toks: seq<string>, words: seq<string>, delim: char): Doc
    decreases toks
  {
    if toks == [] then
      if words == [] then [] else [Sentence(words, delim)]
    else
      var t := toks[0];
      if Marks(t) == "" then Split(toks[1..], words + [t], delim)
      else Closing(words, t) + Split(toks[1..], [], delim)
  }

  // ---------- the edits ----------

  function InsertAt<T>(ws: seq<T>, i: nat, ts: seq<T>): seq<T>
    requires i <= |ws|
  {
    ws[..i] + ts + ws[i..]
  }

  /** The token array after all edits, or None when some index is out of bounds. */
  function ApplyEdits(ws: seq<string>, edits: seq<Edit>): Option<seq<string>>
    decreases edits
  {
    if edits == [] then Some(ws)
    else if edits[0].index < 0 || edits[0].index > |ws| then None
    else ApplyEdits(InsertAt(ws, edits[0].index, Tokens(edits[0].content)), edits[1..])
  }

  /** The word counter: tokens with at least one non-delimiter. */
  function CountText(toks: seq<string>): nat {
    if toks == [] then 0 else (if HasText(toks[0]) then 1 else 0) + CountText(toks[1..])
  }

  function CountWords(content: string): nat {
    CountText(Tokens(content))
  }

  /** The session's virtual word count. */
  function Virtual(edits: seq<Edit>): nat {
    if edits == [] then 0 else CountWords(edits[0].content) + Virtual(edits[1..])
  }

  /** Every index passed the update handler's bound: `n` words plus the virtual count so far. */
  predicate Accepted(n: nat, edits: seq<Edit>)
    decreases edits
  {
    edits == [] ||
    (0 <= edits[0].index <= n && Accepted(n + CountWords(edits[0].content), edits[1..]))
  }

  /** The tokens of all edits, in queue order. */
  function EditTokens(edits: seq<Edit>): seq<string> {
    if edits == [] then [] else Tokens(edits[0].content) + EditTokens(edits[1..])
  }

  // ---------- facts about tokens ----------

  lemma {:induction false} HeadIsPrefix(t: string)
    ensures t[..|Head(t)|] == Head(t)
    ensures forall c | c in Head(t) :: !IsDelim(c)
    ensures |Head(t)| < |t| ==> IsDelim(t[|Head(t)|])
  {
    if t != "" && !IsDelim(t[0]) {
      HeadIsPrefix(t[1..]);
      assert t[..|Head(t)|] == [t[0]] + t[1..][..|Head(t[1..])|];
    }
  }

  /** The splitter sees a delimiter in the token exactly when the token is not all text. */
  lemma MarksIffDelim(t: string)
    ensures Marks(t) == "" <==> Head(t) == t
    ensures Marks(t) == "" <==> forall c | c in t :: !IsDelim(c)
  {
    HeadIsPrefix(t);
    if |Head(t)| < |t| {
      assert t[|Head(t)|] in t;
    } else {
      assert t == t[..|Head(t)|];
    }
  }

  lemma {:induction false} LeadingDelimsPrefix(t: string)
    ensures |LeadingDelims(t)| <= |t| && t[..|LeadingDelims(t)|] == LeadingDelims(t)
    ensures forall c | c in LeadingDelims(t) :: IsDelim(c)
    ensures |LeadingDelims(t)| < |t| ==> !IsDelim(t[|LeadingDelims(t)|])
  {
    if t != "" && IsDelim(t[0]) {
      LeadingDelimsPrefix(t[1..]);
      assert t[..|LeadingDelims(t)|] == [t[0]] + t[1..][..|LeadingDelims(t[1..])|];
    }
  }

  /** The splitter keeps a prefix of the token, all of it exactly when the token is well shaped. */
  lemma KeptIffWellShaped(t: string)
    ensures |Kept(t)| <= |t|
    ensures |Kept(t)| == |t| <==> WellShaped(t)
    ensures WellShaped(t) ==> Kept(t) == t
  {
    var h := |Head(t)|;
    HeadIsPrefix(t);
    LeadingDelimsPrefix(t[h..]);
    var r := |Marks(t)|;
    assert forall j | h <= j < h + r :: t[j] == t[h..][..r][j - h];
    if h + r < |t| {
      assert !IsDelim(t[h..][r]);
      assert IsDelim(t[h]) && !IsDelim(t[h + r]);
    } else {
      assert t[h..][..r] == t[h..];
      assert Kept(t) == t[..h] + t[h..] == t;
      assert forall i | 0 <= i < h :: t[i] in Head(t);
      forall i, j | 0 <= i < j < |t| && IsDelim(t[i])
        ensures IsDelim(t[j])
      {
        assert t[j] in Marks(t);
      }
    }
  }

  /** What the splitter keeps of any token is its longest well-shaped prefix. */
  lemma KeptIsLongest(t: string, n: nat)
    requires n <= |t|
    ensures |Kept(t)| <= |t| && t[..|Kept(t)|] == Kept(t)
    ensures WellShaped(t[..n]) <==> n <= |Kept(t)|
  {
    var h := |Head(t)|;
    HeadIsPrefix(t);
    LeadingDelimsPrefix(t[h..]);
    var r := |Marks(t)|;
    assert t[..h + r] == t[..h] + t[h..][..r];
    assert forall j | 0 <= j < h :: t[j] in Head(t);
    assert forall j | h <= j < h + r :: t[j] == t[h..][..r][j - h] && t[j] in Marks(t);
    if n > h + r {
      assert IsDelim(t[h]) && !IsDelim(t[h..][r]);
      assert t[..n][h] == t[h] && t[..n][h + r] == t[h + r];
    }
  }

  // ---------- words of the split ----------

  /** The words a token array carries into the document. */
  function HeadWords(toks: seq<string>): seq<string> {
    if toks == [] then [] else WithHead([], toks[0]) + HeadWords(toks[1..])
  }

  lemma {:induction false} EmptySentencesFacts(run: string)
    ensures WordsOf(EmptySentences(run)) == []
    ensures |EmptySentences(run)| == |run|
    ensures forall i | 0 <= i < |run| :: EmptySentences(run)[i] == Sentence([], run[i])
  {
    if run != "" {
      EmptySentencesFacts(run[1..]);
      assert WordsOf(EmptySentences(run)) == [] + WordsOf(EmptySentences(run)[1..]);
    }
  }

  lemma ClosingFacts(words: seq<string>, t: string)
    requires Marks(t) != ""
    ensures WordsOf(Closing(words, t)) == words + WithHead([], t)
    ensures |Closing(words, t)| == |Marks(t)|
    ensures Closing(words, t)[0].words == WithHead(words, t)
    ensures forall i | 0 <= i < |Marks(t)| :: Closing(words, t)[i].delim == Marks(t)[i]
    ensures forall i | 0 < i < |Marks(t)| :: Closing(words, t)[i].words == []
  {
    var first, empties := [Sentence(WithHead(words, t), Marks(t)[0])], EmptySentences(Marks(t)[1..]);
    EmptySentencesFacts(Marks(t)[1..]);
    WordsOfConcat(first, empties);
    assert first[1..] == [];
    assert WithHead(words, t) == words + WithHead([], t);
  }

  /** The words after the split are the token texts in array order. */
  lemma {:induction false} SplitWords(toks: seq<string>, words: seq<string>, delim: char)
    requires "" !in toks
    ensures WordsOf(Split(toks, words, delim)) == words + HeadWords(toks)
    decreases toks
  {
    if toks == [] {
      assert words + [] == words;
    } else {
      var t, rest := toks[0], HeadWords(toks[1..]);
      assert HeadWords(toks) == WithHead([], t) + rest;
      if Marks(t) == "" {
        MarksIffDelim(t);
        SplitWords(toks[1..], words + [t], delim);
        Assoc(words, [t], rest);
      } else {
        SplitWords(toks[1..], [], delim);
        ClosingFacts(words, t);
        WordsOfConcat(Closing(words, t), Split(toks[1..], [], delim));
        assert [] + rest == rest;
        Assoc(words, WithHead([], t), rest);
      }
    }
  }

  lemma {:induction false} HeadWordsConcat(a: seq<string>, b: seq<string>)
    ensures HeadWords(a + b) == HeadWords(a) + HeadWords(b)
  {
    if a == [] {
      assert a + b == b;
    } else {
      assert (a + b)[1..] == a[1..] + b;
      HeadWordsConcat(a[1..], b);
    }
  }

  /** Words of the document pass through the token array unchanged. */
  lemma {:induction false} HeadWordsOfWords(ws: seq<string>)
    requires forall w | w in ws :: DelimFree(w)
    ensures HeadWords(ws) == ws
  {
    if ws != [] {
      MarksIffDelim(ws[0]);
      assert ws[0] in ws;
      HeadWordsOfWords(ws[1..]);
    }
  }

  // ---------- edits that were accepted replay ----------

  lemma {:induction false} CountTextBound(toks: seq<string>)
    ensures CountText(toks) <= |toks|
  {
    if toks != [] {
      CountTextBound(toks[1..]);
    }
  }

  lemma {:induction false} AcceptedSnoc(n: nat, edits: seq<Edit>, e: Edit)
    ensures Virtual(edits + [e]) == Virtual(edits) + CountWords(e.content)
    ensures Accepted(n, edits + [e]) <==> Accepted(n, edits) && 0 <= e.index <= n + Virtual(edits)
    decreases edits
  {
    if edits == [] {
      assert edits + [e] == [e] && [e][1..] == [];
    } else {
      assert (edits + [e])[1..] == edits[1..] + [e];
      AcceptedSnoc(n + CountWords(edits[0].content), edits[1..], e);
    }
  }

  /** Edits accepted against the virtual count stay inside the growing token array. */
  lemma {:induction false} AcceptedEditsReplay(n: nat, ws: seq<string>, edits: seq<Edit>)
    requires Accepted(n, edits) && n <= |ws|
    ensures ApplyEdits(ws, edits).Some?
    decreases edits
  {
    if edits != [] {
      var toks := Tokens(edits[0].content);
      CountTextBound(toks);
      AcceptedEditsReplay(n + CountText(toks), InsertAt(ws, edits[0].index, toks), edits[1..]);
    }
  }

  /** All tokens of all edits land in the array, and nothing else. */
  lemma {:induction false} ApplyEditsTokens(ws: seq<string>, edits: seq<Edit>)
    requires ApplyEdits(ws, edits).Some?
    ensures multiset(ApplyEdits(ws, edits).value) == multiset(ws) + multiset(EditTokens(edits))
    decreases edits
  {
    if edits != [] {
      var i, ts := edits[0].index, Tokens(edits[0].content);
      ApplyEditsTokens(InsertAt(ws, i, ts), edits[1..]);
      assert ws == ws[..i] + ws[i..];
    }
  }

  /** The array's own elements stay in order. */
  lemma {:induction false} ApplyEditsOrder(ws: seq<string>, edits: seq<Edit>)
    requires ApplyEdits(ws, edits).Some?
    ensures Subsequence(ws, ApplyEdits(ws, edits).value)
    decreases edits
  {
    if edits == [] {
      SubsequenceRefl(ws);
    } else {
      var ws' := InsertAt(ws, edits[0].index, Tokens(edits[0].content));
      InsertKeepsOrder(ws, edits[0].index, Tokens(edits[0].content));
      ApplyEditsOrder(ws', edits[1..]);
      SubsequenceTrans(ws, ws', ApplyEdits(ws, edits).value);
    }
  }

  /** An edit lands where it says: the array as the earlier edits left it, opened at the index, with the
      edit's tokens in between. */
  lemma {:induction false} EditLands(ws: seq<string>, edits: seq<Edit>, e: Edit)
    requires ApplyEdits(ws, edits + [e]).Some?
    ensures ApplyEdits(ws, edits).Some?
    ensures var before, after, ts := ApplyEdits(ws, edits).value, ApplyEdits(ws, edits + [e]).value, Tokens(e.content);
            && 0 <= e.index <= |before| && |after| == |before| + |ts|
            && after[..e.index] == before[..e.index]
            && after[e.index..e.index + |ts|] == ts
            && after[e.index + |ts|..] == before[e.index..]
    decreases edits
  {
    if edits == [] {
      assert edits + [e] == [e] && [e][1..] == [];
    } else {
      assert (edits + [e])[1..] == edits[1..] + [e];
      EditLands(InsertAt(ws, edits[0].index, Tokens(edits[0].content)), edits[1..], e);
    }
  }

  /** And it is refused by the replay exactly when the index is outside that array. */
  lemma {:induction false} EditFitsIff(ws: seq<string>, edits: seq<Edit>, e: Edit)
    requires ApplyEdits(ws, edits).Some?
    ensures ApplyEdits(ws, edits + [e]).Some? <==> 0 <= e.index <= |ApplyEdits(ws, edits).value|
    decreases edits
  {
    if edits == [] {
      assert edits + [e] == [e] && [e][1..] == [];
    } else {
      assert (edits + [e])[1..] == edits[1..] + [e];
      EditFitsIff(InsertAt(ws, edits[0].index, Tokens(edits[0].content)), edits[1..], e);
    }
  }

  lemma {:induction false} KeepsOrder<T>(a: seq<T>, ts: seq<T>, b: seq<T>)
    ensures Subsequence(a + b, a + ts + b)
    decreases |a| + |ts|
  {
    var all := a + ts + b;
    if a != [] {
      KeepsOrder(a[1..], ts, b);
      assert (a + b)[1..] == a[1..] + b && all[1..] == a[1..] + ts + b;
    } else if ts != [] {
      KeepsOrder(a, ts[1..], b);
      assert all[1..] == a + ts[1..] + b;
      SubsequenceSkip(a + b, all);
    } else {
      assert all == a + b;
      SubsequenceRefl(a + b);
    }
  }

  lemma InsertKeepsOrder<T>(ws: seq<T>, i: nat, ts: seq<T>)
    requires i <= |ws|
    ensures Subsequence(ws, InsertAt(ws, i, ts))
  {
    KeepsOrder(ws[..i], ts, ws[i..]);
    assert ws[..i] + ws[i..] == ws;
  }

  lemma EditTokensAreTokens(edits: seq<Edit>)
    ensures forall t | t in EditTokens(edits) :: IsToken(t)
  {
    if edits != [] {
      TokensAreTokens(edits[0].content);
      EditTokensAreTokens(edits[1..]);
    }
  }

  // ---------- the two counters ----------

  predicate AllCountable(toks: seq<string>) {
    forall t | t in toks :: Countable(t)
  }

  /** Per token array: the splitter never counts more, and counts the same iff all are countable. */
  lemma {:induction false} CountersOnTokens(toks: seq<string>)
    requires "" !in toks
    ensures |HeadWords(toks)| <= CountText(toks)
    ensures |HeadWords(toks)| == CountText(toks) <==> AllCountable(toks)
  {
    if toks != [] {
      var t := toks[0];
      assert t in toks;
      CountersOnTokens(toks[1..]);
      assert Head(t) != "" ==> t[0] in t;
      assert AllCountable(toks) <==> Countable(t) && AllCountable(toks[1..]);
    }
  }

  lemma {:induction false} HeadCount(ws: seq<string>, edits: seq<Edit>)
    requires ApplyEdits(ws, edits).Some?
    ensures |HeadWords(ApplyEdits(ws, edits).value)| == |HeadWords(ws)| + |HeadWords(EditTokens(edits))|
    decreases edits
  {
    if edits != [] {
      var i, ts := edits[0].index, Tokens(edits[0].content);
      HeadCount(InsertAt(ws, i, ts), edits[1..]);
      HeadWordsConcat(ws[..i], ts);
      HeadWordsConcat(ws[..i] + ts, ws[i..]);
      HeadWordsConcat(ws[..i], ws[i..]);
      assert ws[..i] + ws[i..] == ws;
      HeadWordsConcat(ts, EditTokens(edits[1..]));
    }
  }

  lemma {:induction false} VirtualIsCountText(edits: seq<Edit>)
    ensures Virtual(edits) == CountText(EditTokens(edits))
  {
    if edits != [] {
      VirtualIsCountText(edits[1..]);
      CountTextConcat(Tokens(edits[0].content), EditTokens(edits[1..]));
    }
  }

  lemma {:induction false} CountTextConcat(a: seq<string>, b: seq<string>)
    ensures CountText(a + b) == CountText(a) + CountText(b)
  {
    if a == [] {
      assert a + b == b;
    } else {
      assert (a + b)[1..] == a[1..] + b;
      CountTextConcat(a[1..], b);
    }
  }

  /** The words added across a rebuild equal the virtual count exactly when every queued token is
      countable; otherwise fewer words are added than were counted. */
  lemma CountersAgreeIffCountable(words: seq<string>, edits: seq<Edit>, delim: char)
    requires (forall w | w in words :: DelimFree(w)) && ApplyEdits(words, edits).Some?
    ensures var grown := |WordsOf(Split(ApplyEdits(words, edits).value, [], delim))| - |words|;
            && grown <= Virtual(edits)
            && (grown == Virtual(edits) <==> AllCountable(EditTokens(edits)))
  {
    var toks := ApplyEdits(words, edits).value;
    ReplayedTokens(words, edits);
    SplitWords(toks, [], delim);
    HeadCount(words, edits);
    HeadWordsOfWords(words);
    EditTokensAreTokens(edits);
    CountersOnTokens(EditTokens(edits));
    VirtualIsCountText(edits);
  }

  lemma ReplayedTokens(words: seq<string>, edits: seq<Edit>)
    requires "" !in words && ApplyEdits(words, edits).Some?
    ensures var toks := ApplyEdits(words, edits).value;
            "" !in toks && (forall t | t in toks :: t in words || t in EditTokens(edits))
  {
    var toks := ApplyEdits(words, edits).value;
    ApplyEditsTokens(words, edits);
    EditTokensAreTokens(edits);
    forall t | t in toks
      ensures t in words || t in EditTokens(edits)
    {
      assert t in multiset(toks);
      assert t in multiset(words) + multiset(EditTokens(edits));
    }
  }

  // ---------- no commit loses or reorders words ----------

  lemma {:induction false} HeadWordsMonotone(a: seq<string>, b: seq<string>)
    requires Subsequence(a, b)
    ensures Subsequence(HeadWords(a), HeadWords(b))
    decreases b
  {
    if a == [] {
    } else if a[0] == b[0] && Subsequence(a[1..], b[1..]) {
      HeadWordsMonotone(a[1..], b[1..]);
      SubsequenceRefl(WithHead([], a[0]));
      SubsequenceConcat(WithHead([], a[0]), HeadWords(a[1..]), WithHead([], b[0]), HeadWords(b[1..]));
    } else {
      HeadWordsMonotone(a, b[1..]);
      SubsequenceConcat([], HeadWords(a), WithHead([], b[0]), HeadWords(b[1..]));
      assert [] + HeadWords(a) == HeadWords(a);
    }
  }

  /** A sentence's words survive its rebuild in order, whatever was queued. */
  lemma RebuildKeepsWords(words: seq<string>, edits: seq<Edit>, delim: char)
    requires (forall w | w in words :: DelimFree(w)) && ApplyEdits(words, edits).Some?
    ensures Subsequence(words, WordsOf(Split(ApplyEdits(words, edits).value, [], delim)))
  {
    var toks := ApplyEdits(words, edits).value;
    ReplayedTokens(words, edits);
    SplitWords(toks, [], delim);
    assert Subsequence(words, WordsOf(Split(toks, [], delim))) by {
      ApplyEditsOrder(words, edits);
      HeadWordsMonotone(words, toks);
      HeadWordsOfWords(words);
      assert [] + HeadWords(toks) == HeadWords(toks);
    }
  }

  // ---------- the shape of the split, whatever was queued ----------

  /** A run of sentences that may take the place of one with this delimiter. */
  predicate RunShaped(d: Doc, delim: char) {
    forall i | 0 <= i < |d| ::
      && (forall w | w in d[i].words :: DelimFree(w))
      && (IsDelim(d[i].delim) || (i == |d| - 1 && d[i].delim == delim && d[i].words != []))
  }

  lemma {:induction false} SplitIsShaped(toks: seq<string>, words: seq<string>, delim: char)
    requires "" !in toks && forall w | w in words :: DelimFree(w)
    ensures RunShaped(Split(toks, words, delim), delim)
    ensures Split(toks, words, delim) == [] <==> toks == [] && words == []
    decreases toks
  {
    if toks != [] {
      var t := toks[0];
      MarksIffDelim(t);
      if Marks(t) == "" {
        SplitIsShaped(toks[1..], words + [t], delim);
      } else {
        SplitIsShaped(toks[1..], [], delim);
        ClosingDelims(words, t);
        ClosingWords(words, t);
        RunShapedConcat(Closing(words, t), Split(toks[1..], [], delim), delim);
      }
    }
  }

  lemma ClosingWords(words: seq<string>, t: string)
    requires Marks(t) != "" && forall w | w in words :: DelimFree(w)
    ensures forall s, w | s in Closing(words, t) && w in s.words :: DelimFree(w)
  {
    ClosingFacts(words, t);
    HeadIsPrefix(t);
  }

  lemma RunShapedConcat(a: Doc, b: Doc, delim: char)
    requires forall i | 0 <= i < |a| :: IsDelim(a[i].delim) && forall w | w in a[i].words :: DelimFree(w)
    requires RunShaped(b, delim)
    ensures RunShaped(a + b, delim)
  {
  }

  // ---------- a rebuild that changes nothing ----------

  predicate MarkFree(toks: seq<string>) {
    forall t | t in toks :: Marks(t) == ""
  }

  lemma {:induction false} SplitNonEmpty(toks: seq<string>, words: seq<string>, delim: char)
    requires toks != [] || words != []
    ensures Split(toks, words, delim) != []
    decreases toks
  {
    if toks != [] && Marks(toks[0]) == "" {
      SplitNonEmpty(toks[1..], words + [toks[0]], delim);
    }
  }

  /** A split into one sentence: no token has a mark, or the last one has the one mark that ends it. */
  lemma {:induction false} SplitIsOne(toks: seq<string>, words: seq<string>, delim: char)
    requires |Split(toks, words, delim)| == 1
    ensures var s, n := Split(toks, words, delim)[0], |toks|;
            || (MarkFree(toks) && s == Sentence(words + toks, delim))
            || (n > 0 && MarkFree(toks[..n - 1]) && Marks(toks[n - 1]) == [s.delim]
                && s.words == WithHead(words + toks[..n - 1], toks[n - 1]))
    decreases toks
  {
    if toks == [] {
      assert words + [] == words;
    } else if Marks(toks[0]) == "" {
      var rest := toks[1..];
      SplitIsOne(rest, words + [toks[0]], delim);
      assert toks == [toks[0]] + rest;
      Assoc(words, [toks[0]], rest);
      if rest != [] {
        assert toks[..|toks| - 1] == [toks[0]] + rest[..|rest| - 1];
        Assoc(words, [toks[0]], rest[..|rest| - 1]);
      }
    } else {
      ClosingFacts(words, toks[0]);
      if toks[1..] != [] {
        SplitNonEmpty(toks[1..], [], delim);
      }
      assert toks[..0] == [] && words + [] == words;
    }
  }

  /** All that was queued is one token at the end of the sentence, of which the splitter keeps only the
      delimiter that ends the sentence anyway. */
  predicate Redundant(words: seq<string>, edits: seq<Edit>, delim: char) {
    && |EditTokens(edits)| == 1 && IsDelim(delim) && Kept(EditTokens(edits)[0]) == [delim]
    && ApplyEdits(words, edits) == Some(words + EditTokens(edits))
  }

  lemma KeptMark(t: string, delim: char)
    requires IsDelim(delim)
    ensures Kept(t) == [delim] <==> Head(t) == "" && Marks(t) == [delim]
  {
    HeadIsPrefix(t);
    if Head(t) != "" {
      assert Kept(t)[0] == Head(t)[0] && Head(t)[0] in Head(t);
    }
  }

  /** Tokens without a mark, and after them one that only ends the sentence. */
  lemma {:induction false} SplitMarked(words: seq<string>, toks: seq<string>, t: string, delim: char)
    requires MarkFree(toks) && Marks(t) == [delim] && Head(t) == ""
    ensures Split(toks + [t], words, delim) == [Sentence(words + toks, delim)]
    decreases toks
  {
    if toks == [] {
      assert toks + [t] == [t] && [t][1..] == [] && words + [] == words;
      assert EmptySentences([delim][1..]) == [];
    } else {
      assert (toks + [t])[1..] == toks[1..] + [t];
      SplitMarked(words + [toks[0]], toks[1..], t, delim);
      assert words + [toks[0]] + toks[1..] == words + toks;
    }
  }

  lemma RedundantSplit(words: seq<string>, edits: seq<Edit>, delim: char)
    requires (forall w | w in words :: DelimFree(w)) && Redundant(words, edits, delim)
    ensures Split(ApplyEdits(words, edits).value, [], delim) == [Sentence(words, delim)]
  {
    var t := EditTokens(edits)[0];
    KeptMark(t, delim);
    forall w | w in words
      ensures Marks(w) == ""
    {
      MarksIffDelim(w);
    }
    SplitMarked([], words, t, delim);
    assert EditTokens(edits) == [t] && [] + words == words;
  }

  /** A rebuild with a token the counters disagree on gives the same sentence exactly when what was
      queued is redundant. */
  lemma SplitSameIff(words: seq<string>, edits: seq<Edit>, delim: char)
    requires (forall w | w in words :: DelimFree(w)) && ApplyEdits(words, edits).Some?
    requires !AllCountable(EditTokens(edits))
    ensures Split(ApplyEdits(words, edits).value, [], delim) == [Sentence(words, delim)]
       <==> Redundant(words, edits, delim)
  {
    var toks := ApplyEdits(words, edits).value;
    if Redundant(words, edits, delim) {
      RedundantSplit(words, edits, delim);
    } else if Split(toks, [], delim) == [Sentence(words, delim)] {
      ApplyEditsTokens(words, edits);
      assert |multiset(toks)| == |multiset(words)| + |multiset(EditTokens(edits))|;
      SplitIsOne(toks, [], delim);
      assert [] + toks == toks;
      OnlyLast(words, toks, EditTokens(edits), delim);
    }
  }

  lemma SameRest(a: multiset<string>, b: multiset<string>, c: multiset<string>)
    requires a + b == a + c
    ensures b == c
  {
    forall x
      ensures b[x] == c[x]
    {
      assert (a + b)[x] == a[x] + b[x] && (a + c)[x] == a[x] + c[x];
    }
  }

  lemma OnlyLast(words: seq<string>, toks: seq<string>, queued: seq<string>, delim: char)
    requires |toks| == |words| + |queued| && queued != []
    requires multiset(toks) == multiset(words) + multiset(queued)
    requires var n := |toks|;
             || words == toks
             || (Marks(toks[n - 1]) == [delim] && words == WithHead([] + toks[..n - 1], toks[n - 1]))
    ensures |queued| == 1 && IsDelim(delim) && Kept(queued[0]) == [delim] && toks == words + queued
  {
    var n := |toks|;
    var init, t := toks[..n - 1], toks[n - 1];
    assert [] + init == init && toks == init + [t];
    assert words == init;
    LastIsQueued(init, t, queued, delim);
  }

  lemma LastIsQueued(init: seq<string>, t: string, queued: seq<string>, delim: char)
    requires |queued| == 1 && multiset(init + [t]) == multiset(init) + multiset(queued)
    requires Marks(t) == [delim] && Head(t) == ""
    ensures queued == [t] && IsDelim(delim) && Kept(t) == [delim]
  {
    SameRest(multiset(init), multiset([t]), multiset(queued));
    assert queued[0] in multiset([t]);
    LeadingDelimsPrefix(t[|Head(t)|..]);
    assert delim in Marks(t);
    KeptMark(t, delim);
  }

  // ---------- the split is well-formed ----------

  predicate SplitForm(d: Doc, delim: char) {
    forall i | 0 <= i < |d| ::
      IsWords(d[i].words) && (IsDelim(d[i].delim) || (i == |d| - 1 && d[i].delim == delim))
  }

  lemma {:induction false} SplitIsWellFormed(toks: seq<string>, words: seq<string>, delim: char)
    requires forall t | t in toks :: IsToken(t) && PlainHead(t)
    requires IsWords(words)
    ensures SplitForm(Split(toks, words, delim), delim)
    ensures Split(toks, words, delim) == [] <==> toks == [] && words == []
    decreases toks
  {
    if toks != [] {
      var t := toks[0];
      assert t in toks;
      TokenForm(t);
      if Marks(t) == "" {
        SplitIsWellFormed(toks[1..], words + [t], delim);
      } else {
        SplitIsWellFormed(toks[1..], [], delim);
        ClosingForm(words, t);
        SplitFormConcat(Closing(words, t), Split(toks[1..], [], delim), delim);
      }
    }
  }

  lemma TokenForm(t: string)
    requires IsToken(t) && PlainHead(t)
    ensures Marks(t) == "" ==> IsWord(t)
    ensures Head(t) != "" ==> IsWord(Head(t))
    ensures forall c | c in Marks(t) :: IsDelim(c)
  {
    HeadIsPrefix(t);
    MarksIffDelim(t);
    LeadingDelimsPrefix(t[|Head(t)|..]);
    forall c | c in Head(t) ensures !IsSpace(c) && !IsPunct(c) {
      assert c in t[..|Head(t)|];
      assert c in t && !IsDelim(c);
    }
  }

  lemma ClosingForm(words: seq<string>, t: string)
    requires IsToken(t) && PlainHead(t) && Marks(t) != "" && IsWords(words)
    ensures forall s | s in Closing(words, t) :: IsWords(s.words) && IsDelim(s.delim)
  {
    TokenForm(t);
    ClosingFacts(words, t);
    forall i | 0 <= i < |Marks(t)|
      ensures IsWords(Closing(words, t)[i].words) && IsDelim(Closing(words, t)[i].delim)
    {
      assert Marks(t)[i] in Marks(t);
    }
  }

  lemma SplitFormConcat(a: Doc, b: Doc, delim: char)
    requires forall s | s in a :: IsWords(s.words) && IsDelim(s.delim)
    requires SplitForm(b, delim)
    ensures SplitForm(a + b, delim)
  {
  }

  lemma {:induction false} HeadInWords(toks: seq<string>, t: string)
    requires t in toks && Head(t) != ""
    ensures Head(t) in HeadWords(toks)
  {
    if toks[0] != t {
      HeadInWords(toks[1..], t);
    }
  }

  lemma {:induction false} WordsOfAreWords(d: Doc)
    requires forall i | 0 <= i < |d| :: IsWords(d[i].words)
    ensures IsWords(WordsOf(d))
  {
    if d != [] {
      assert forall i | 0 <= i < |d[1..]| :: d[1..][i] == d[i + 1];
      WordsOfAreWords(d[1..]);
    }
  }

  /** The split has real words only if every token's kept text is plain. */
  lemma HeadsArePlain(toks: seq<string>, delim: char)
    requires forall t | t in toks :: IsToken(t)
    requires forall i | 0 <= i < |Split(toks, [], delim)| :: IsWords(Split(toks, [], delim)[i].words)
    ensures forall t | t in toks :: PlainHead(t)
  {
    SplitWords(toks, [], delim);
    WordsOfAreWords(Split(toks, [], delim));
    assert [] + HeadWords(toks) == HeadWords(toks);
    forall t | t in toks && Head(t) != ""
      ensures PlainHead(t)
    {
      HeadInWords(toks, t);
      assert IsWord(Head(t));
    }
  }

  // ---------- the splitter against the file parser ----------

  predicate SpaceFree(t: string) {
    t != "" && forall c | c in t :: !IsSpace(c)
  }

  lemma {:induction false} FeedRun(closed: Doc, run: string)
    requires forall c | c in run :: IsPunct(c)
    ensures FeedAll(Parsing(closed, [], ""), run) == Parsing(closed + EmptySentences(run), [], "")
    decreases run
  {
    if run == "" {
      assert closed + [] == closed;
    } else {
      assert run[0] in run;
      var next := closed + [Sentence([], run[0])];
      assert Feed(Parsing(closed, [], ""), run[0]) == Parsing(next, [], "");
      FeedRun(next, run[1..]);
      Assoc(closed, [Sentence([], run[0])], EmptySentences(run[1..]));
    }
  }

  lemma TokenParts(t: string)
    requires SpaceFree(t) && WellShaped(t)
    ensures t == Head(t) + Marks(t) && NoMarks(Head(t)) && forall c | c in Marks(t) :: IsPunct(c)
  {
    KeptIffWellShaped(t);
    HeadIsPrefix(t);
    LeadingDelimsPrefix(t[|Head(t)|..]);
    forall c | c in Head(t) ensures !IsSpace(c) && !IsPunct(c) {
      assert c in t && !IsDelim(c);
    }
    forall c | c in Marks(t) ensures IsPunct(c) {
      assert c in t && IsDelim(c);
    }
  }

  /** The parser on one well-shaped token with delimiters. */
  lemma FeedClosing(closed: Doc, words: seq<string>, t: string)
    requires SpaceFree(t) && WellShaped(t)
    requires Marks(t) != ""
    ensures var run := Marks(t);
            FeedAll(Parsing(closed, words, ""), t)
            == Parsing(closed + [Sentence(WithHead(words, t), run[0])] + EmptySentences(run[1..]), [], "")
  {
    var p := Parsing(closed, words, "");
    var h, run := Head(t), Marks(t);
    TokenParts(t);
    FeedAllConcat(p, h, run);
    FeedWord(p, h);
    assert "" + h == h;
    var first := closed + [Sentence(WithHead(words, t), run[0])];
    assert Feed(p.(word := h), run[0]) == Parsing(first, [], "");
    FeedRun(first, run[1..]);
  }

  /** The parser on one token and what follows it up to the next one. */
  lemma FeedToken(closed: Doc, words: seq<string>, t: string)
    requires SpaceFree(t) && WellShaped(t)
    ensures var q := FeedAll(Parsing(closed, words, ""), t);
            if Marks(t) == "" then q == Parsing(closed, words, t)
            else q == Parsing(closed + Closing(words, t), [], "")
  {
    if Marks(t) == "" {
      MarksIffDelim(t);
      FeedWord(Parsing(closed, words, ""), t);
      assert "" + t == t;
    } else {
      FeedClosing(closed, words, t);
      assert closed + Closing(words, t)
          == closed + [Sentence(WithHead(words, t), Marks(t)[0])] + EmptySentences(Marks(t)[1..]);
    }
  }

  lemma {:induction false} FeedTokens(closed: Doc, words: seq<string>, toks: seq<string>)
    requires forall t | t in toks :: SpaceFree(t) && WellShaped(t)
    ensures Finish(FeedAll(Parsing(closed, words, ""), Join(toks))) == closed + Closed(Split(toks, words, ' '))
    decreases toks
  {
    var p := Parsing(closed, words, "");
    if toks != [] {
      var t := toks[0];
      assert t in toks;
      FeedToken(closed, words, t);
      var q := FeedAll(p, t);
      var q' := Parsing(q.closed, q.Words(), "");
      assert Finish(FeedAll(p, Join(toks))) == Finish(FeedAll(q', Join(toks[1..]))) by {
        if |toks| > 1 {
          FeedAllConcat(p, t + " ", Join(toks[1..]));
          FeedAllConcat(p, t, " ");
          assert FeedAll(q, " ") == Feed(q, ' ') == q';
        }
      }
      FeedTokens(q'.closed, q'.words, toks[1..]);
      if Marks(t) != "" {
        ClosingClosed(closed, words, t, Split(toks[1..], [], ' '));
      }
    }
  }

  lemma ClosingEnd(words: seq<string>, t: string)
    requires SpaceFree(t) && Marks(t) != ""
    ensures Closing(words, t) != [] && Closing(words, t)[|Closing(words, t)| - 1].delim != ' '
  {
    MarksArePunct(t);
    ClosingFacts(words, t);
    assert Marks(t)[|Marks(t)| - 1] in Marks(t);
  }

  lemma ClosingClosed(closed: Doc, words: seq<string>, t: string, rest: Doc)
    requires SpaceFree(t) && Marks(t) != ""
    ensures closed + Closing(words, t) + Closed(rest) == closed + Closed(Closing(words, t) + rest)
  {
    ClosingEnd(words, t);
    ClosedConcat(closed, Closing(words, t), rest);
  }

  lemma ClosedConcat(closed: Doc, a: Doc, b: Doc)
    requires a != [] && a[|a| - 1].delim != ' '
    ensures closed + a + Closed(b) == closed + Closed(a + b)
  {
    assert Closed(a + b) == a + Closed(b);
  }

  // The text each side keeps: the parser all of it, the splitter only the kept prefixes.

  function KeptText(toks: seq<string>): string {
    if toks == [] then "" else Kept(toks[0]) + KeptText(toks[1..])
  }

  lemma {:induction false} EmptyLetters(run: string)
    requires forall c | c in run :: IsPunct(c)
    ensures Letters(EmptySentences(run)) == run
  {
    if run != "" {
      assert run[0] in run;
      EmptyLetters(run[1..]);
    }
  }

  lemma ClosingLetters(words: seq<string>, t: string)
    requires Marks(t) != "" && forall c | c in Marks(t) :: IsPunct(c)
    ensures Letters(Closing(words, t)) == Concat(words) + Kept(t)
  {
    var run := Marks(t);
    assert run[0] in run && IsPunct(run[0]);
    EmptyLetters(run[1..]);
    WithHeadLetters(words, t);
    LettersCons(Sentence(WithHead(words, t), run[0]), EmptySentences(run[1..]));
    assert Letters(Closing(words, t)) == Concat(words) + Head(t) + [run[0]] + run[1..];
    Reassociate(Concat(words), Head(t), run);
  }

  lemma Reassociate(a: string, b: string, run: string)
    requires run != ""
    ensures a + b + [run[0]] + run[1..] == a + (b + run)
  {
  }

  lemma LettersCons(s: Sentence, d: Doc)
    ensures Letters([s] + d) == Concat(s.words) + (if IsPunct(s.delim) then [s.delim] else "") + Letters(d)
  {
    assert ([s] + d)[1..] == d;
  }

  lemma WithHeadLetters(words: seq<string>, t: string)
    ensures Concat(WithHead(words, t)) == Concat(words) + Head(t)
  {
    if Head(t) != "" {
      ConcatConcat(words, [Head(t)]);
      assert Concat([Head(t)]) == Head(t) + Concat([]);
    }
  }

  lemma {:induction false} SplitLetters(toks: seq<string>, words: seq<string>)
    requires forall t | t in toks :: SpaceFree(t)
    ensures Letters(Split(toks, words, ' ')) == Concat(words) + KeptText(toks)
    decreases toks
  {
    if toks != [] {
      var t := toks[0];
      assert t in toks;
      MarksIffDelim(t);
      if Marks(t) == "" {
        SplitLetters(toks[1..], words + [t]);
        ConcatConcat(words, [t]);
        assert Concat([t]) == t + Concat([]);
        assert Kept(t) == t;
        Assoc(Concat(words), t, KeptText(toks[1..]));
      } else {
        SplitLetters(toks[1..], []);
        MarksArePunct(t);
        ClosingLetters(words, t);
        LettersConcat(Closing(words, t), Split(toks[1..], [], ' '));
        assert Concat([]) + KeptText(toks[1..]) == KeptText(toks[1..]);
        Assoc(Concat(words), Kept(t), KeptText(toks[1..]));
      }
    } else if words != [] {
      assert [Sentence(words, ' ')][1..] == [];
    }
  }

  lemma MarksArePunct(t: string)
    requires SpaceFree(t)
    ensures forall c | c in Marks(t) :: IsPunct(c)
  {
    LeadingDelimsPrefix(t[|Head(t)|..]);
    forall c | c in Marks(t) ensures IsPunct(c) {
      assert c in t && IsDelim(c);
    }
  }

  lemma {:induction false} VisibleConcat(a: string, b: string)
    ensures Visible(a + b) == Visible(a) + Visible(b)
  {
    if a == "" {
      assert a + b == b;
    } else {
      assert (a + b)[1..] == a[1..] + b;
      VisibleConcat(a[1..], b);
    }
  }

  lemma {:induction false} VisibleToken(t: string)
    requires forall c | c in t :: !IsSpace(c)
    ensures Visible(t) == t
  {
    if t != "" {
      assert t[0] in t;
      VisibleToken(t[1..]);
    }
  }

  lemma VisibleTokenThen(t: string, rest: string)
    requires SpaceFree(t)
    ensures Visible(t + " " + rest) == t + Visible(rest)
  {
    VisibleToken(t);
    VisibleConcat(t + " ", rest);
    VisibleConcat(t, " ");
    assert Visible(" ") == "" && t + "" == t;
  }

  lemma {:induction false} VisibleJoin(toks: seq<string>)
    requires forall t | t in toks :: SpaceFree(t)
    ensures Visible(Join(toks)) == Concat(toks)
  {
    if toks != [] {
      assert toks[0] in toks;
      if |toks| > 1 {
        VisibleTokenThen(toks[0], Join(toks[1..]));
        VisibleJoin(toks[1..]);
      } else {
        VisibleToken(toks[0]);
        assert Concat(toks[1..]) == "" && toks[0] + "" == toks[0];
      }
    }
  }

  lemma {:induction false} KeptTextLength(toks: seq<string>)
    ensures |KeptText(toks)| <= |Concat(toks)|
    ensures |KeptText(toks)| == |Concat(toks)| ==> forall t | t in toks :: WellShaped(t)
  {
    if toks != [] {
      KeptIffWellShaped(toks[0]);
      KeptTextLength(toks[1..]);
      forall t | t in toks && |KeptText(toks)| == |Concat(toks)| ensures WellShaped(t) {
        assert t == toks[0] || t in toks[1..];
      }
    }
  }

  /** The commit's splitter yields the file parser's document, up to the closing sentence,
      exactly when every token is a run of text followed by a run of punctuation. */
  lemma SplitterAgreesIffWellShaped(toks: seq<string>)
    requires forall t | t in toks :: SpaceFree(t)
    ensures Parse(Join(toks)) == Closed(Split(toks, [], ' ')) <==> forall t | t in toks :: WellShaped(t)
  {
    if forall t | t in toks :: WellShaped(t) {
      FeedTokens([], [], toks);
      assert [] + Closed(Split(toks, [], ' ')) == Closed(Split(toks, [], ' '));
    } else {
      SplitterKeepsText(toks);
      ParseKeepsText(Join(toks));
      VisibleJoin(toks);
      KeptTextLength(toks);
    }
  }

  /** The text a split carries: the kept prefix of every token. */
  lemma SplitterKeepsText(toks: seq<string>)
    requires forall t | t in toks :: SpaceFree(t)
    ensures Letters(Closed(Split(toks, [], ' '))) == KeptText(toks)
  {
    var d := Split(toks, [], ' ');
    SplitLetters(toks, []);
    LettersConcat(d, [Sentence([], ' ')]);
    LettersOne(Sentence([], ' '));
    assert "" + KeptText(toks) == KeptText(toks);
    assert Letters(d) + "" == Letters(d);
  }

  /** The same document but for the delimiter of its last sentence, if that was left open. */
  predicate Redelimited(plain: Doc, d: Doc, delim: char) {
    && |d| == |plain|
    && (forall i | 0 <= i < |d| :: d[i].words == plain[i].words)
    && (forall i | 0 <= i < |d| :: d[i].delim == if plain[i].delim == ' ' then delim else plain[i].delim)
    && (forall i | 0 <= i < |d| && plain[i].delim == ' ' :: i == |d| - 1)
  }

  lemma RedelimitedConcat(a: Doc, plain: Doc, d: Doc, delim: char)
    requires Redelimited(plain, d, delim) && forall i | 0 <= i < |a| :: a[i].delim != ' '
    ensures Redelimited(a + plain, a + d, delim)
  {
  }

  lemma ClosingDelims(words: seq<string>, t: string)
    requires Marks(t) != ""
    ensures forall i | 0 <= i < |Closing(words, t)| :: IsDelim(Closing(words, t)[i].delim)
  {
    ClosingFacts(words, t);
    LeadingDelimsPrefix(t[|Head(t)|..]);
    assert forall i | 0 <= i < |Marks(t)| :: Marks(t)[i] in Marks(t);
  }

  /** The delimiter of the rebuilt sentence goes to the last new sentence, and only if that one was left
      open. */
  lemma {:induction false} SplitDelimiter(toks: seq<string>, words: seq<string>, delim: char)
    ensures Redelimited(Split(toks, words, ' '), Split(toks, words, delim), delim)
    decreases toks
  {
    if toks != [] {
      var t := toks[0];
      if Marks(t) == "" {
        SplitDelimiter(toks[1..], words + [t], delim);
      } else {
        SplitDelimiter(toks[1..], [], delim);
        ClosingDelims(words, t);
        RedelimitedConcat(Closing(words, t), Split(toks[1..], [], ' '), Split(toks[1..], [], delim), delim);
      }
    }
  }
}
