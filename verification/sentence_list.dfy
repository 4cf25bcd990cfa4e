/** The linked list of sentence nodes: built by the parser, walked by the flusher, and cut open by
    a commit. A node's words are kept as one sequence; `id` stands for its address. */
module SentenceList {
  import opened Text
  import opened Document
  import opened Rebuild
  import opened EditEngine

  class SentenceNode {
    ghost const id: nat
    var words: seq<string>
    var delimiter: char
    var next: SentenceNode?

    constructor (ghost id: nat, delim: char)
      ensures this.id == id && words == [] && delimiter == delim && next == null
    {
      this.id := id;
      words := [];
      delimiter := delim;
      next := null;
    }
  }

  /** `nodes` are the nodes reached from `head`, in order, without a cycle. */
  ghost predicate Chain(head: SentenceNode?, nodes: seq<SentenceNode>)
    reads nodes
  {
    && head == (if nodes == [] then null else nodes[0])
    && (forall i {:trigger nodes[i].next} | 0 <= i < |nodes| - 1 :: nodes[i].next == nodes[i + 1])
    && (nodes != [] ==> nodes[|nodes| - 1].next == null)
    && (forall i, j | 0 <= i < j < |nodes| :: nodes[i] != nodes[j])
  }

  ghost function Value(node: SentenceNode): Node
    reads node
  {
    Node(node.id, node.words, node.delimiter)
  }

  /** The list as the edit engine sees it. */
  ghost function Values(nodes: seq<SentenceNode>): seq<Node>
    reads nodes
  {
    seq(|nodes|, i requires 0 <= i < |nodes| reads nodes => Value(nodes[i]))
  }

  // ---------- parsing into a list ----------

  /** Link a new empty sentence behind the last one. */
  method OpenSentence(ghost head: SentenceNode, last: SentenceNode, ghost nodes: seq<SentenceNode>, ghost id: nat)
    returns (node: SentenceNode, ghost nodes': seq<SentenceNode>)
    requires Chain(head, nodes) && nodes != [] && last == nodes[|nodes| - 1]
    modifies last
    ensures fresh(node) && nodes' == nodes + [node] && Chain(head, nodes')
    ensures Value(node) == Node(id, [], ' ') && last.words == old(last.words) && last.delimiter == old(last.delimiter)
  {
    node := new SentenceNode(id, ' ');
    last.next := node;
    nodes' := nodes + [node];
    assert forall i | 0 <= i < |nodes| - 1 :: nodes[i].next == nodes[i + 1];
  }

  /** The nodes carry these sentences, with consecutive ids from `base` on. */
  ghost predicate Built(nodes: seq<SentenceNode>, d: Doc, base: nat)
    reads nodes
  {
    |nodes| == |d| && forall i | 0 <= i < |nodes| :: Value(nodes[i]) == Node(base + i, d[i].words, d[i].delim)
  }

  /** The list and the word buffer between two characters. */
  ghost predicate Parsed(nodes: seq<SentenceNode>, word: string, p: Parsing, base: nat)
    reads nodes
  {
    nodes != [] && Built(nodes, p.closed + [Sentence(p.words, ' ')], base) && word == p.word
  }

  /** Append the buffered word to the open sentence. */
  method EndWord(current: SentenceNode, word: string, ghost nodes: seq<SentenceNode>, ghost p: Parsing, ghost base: nat)
    requires nodes != [] && Chain(nodes[0], nodes) && Parsed(nodes, word, p, base) && current == nodes[|nodes| - 1]
    modifies current
    ensures Chain(nodes[0], nodes) && Parsed(nodes, "", Parsing(p.closed, p.Words(), ""), base)
  {
    if word != "" {
      current.words := current.words + [word];
    }
  }

  /** Close the open sentence with `c` and start the next one. */
  method EndSentence(current: SentenceNode, c: char, ghost nodes: seq<SentenceNode>, ghost p: Parsing, ghost base: nat)
    returns (node: SentenceNode, ghost nodes': seq<SentenceNode>)
    requires nodes != [] && Chain(nodes[0], nodes) && Parsed(nodes, "", p, base) && current == nodes[|nodes| - 1]
    modifies current
    ensures fresh(node) && nodes' == nodes + [node] && Chain(nodes[0], nodes')
    ensures Parsed(nodes', "", Parsing(p.closed + [Sentence(p.words, c)], [], ""), base)
  {
    current.delimiter := c;
    node, nodes' := OpenSentence(nodes[0], current, nodes, base + |nodes|);
    ghost var d := p.closed + [Sentence(p.words, c)] + [Sentence([], ' ')];
    forall i | 0 <= i < |nodes'|
      ensures Value(nodes'[i]) == Node(base + i, d[i].words, d[i].delim)
    {
      assert i < |nodes| ==> nodes'[i] == nodes[i];
    }
  }

  /** One character: a delimiter ends the word and the sentence, white space the word. */
  method FeedChar(current: SentenceNode, word: string, c: char,
                  ghost nodes: seq<SentenceNode>, ghost p: Parsing, ghost base: nat)
    returns (current': SentenceNode, word': string, ghost nodes': seq<SentenceNode>)
    requires nodes != [] && Chain(nodes[0], nodes) && current == nodes[|nodes| - 1]
    requires Parsed(nodes, word, p, base)
    modifies current
    ensures nodes' == nodes || (nodes' == nodes + [current'] && fresh(current'))
    ensures Chain(nodes[0], nodes') && current' == nodes'[|nodes'| - 1]
    ensures Parsed(nodes', word', Feed(p, c), base)
  {
    current', word', nodes' := current, "", nodes;
    if IsPunct(c) {
      EndWord(current, word, nodes, p, base);
      current', nodes' := EndSentence(current, c, nodes, Parsing(p.closed, p.Words(), ""), base);
    } else if IsSpace(c) {
      EndWord(current, word, nodes, p, base);
      if c == '\n' {
        current', nodes' := EndSentence(current, '\n', nodes, Parsing(p.closed, p.Words(), ""), base);
      }
    } else {
      word' := word + [c];
    }
  }

  /** The parser loop: nodes are appended as their delimiters are read. */
  method ParseFileToList(text: string, ghost base: nat) returns (head: SentenceNode, ghost nodes: seq<SentenceNode>)
    ensures fresh(nodes) && Chain(head, nodes)
    ensures Values(nodes) == Fresh(Parse(text), base)
  {
    head := new SentenceNode(base, ' ');
    var current := head;
    var word := "";
    nodes := [head];
    ghost var p := START;
    for i := 0 to |text|
      invariant fresh(nodes) && nodes != [] && Chain(head, nodes) && current == nodes[|nodes| - 1]
      invariant Parsed(nodes, word, p, base)
      invariant FeedAll(p, text[i..]) == FeedAll(START, text)
    {
      assert text[i..][1..] == text[i + 1..];
      current, word, nodes := FeedChar(current, word, text[i], nodes, p, base);
      p := Feed(p, text[i]);
    }
    assert text[|text|..] == "";
    EndWord(current, word, nodes, p, base);
    BuiltValues(nodes, Finish(p), base);
  }

  lemma BuiltValues(nodes: seq<SentenceNode>, d: Doc, base: nat)
    requires Built(nodes, d, base)
    ensures Values(nodes) == Fresh(d, base)
  {
  }

  // ---------- flushing a list ----------

  lemma {:induction false} FlushSplit(d: Doc, i: nat)
    requires i < |d|
    ensures Flush(d[i..]) == Join(d[i].words) + Tail(d[i].delim, i == |d| - 1) + Flush(d[i + 1..])
  {
    assert d[i..][1..] == d[i + 1..] && d[i..][0] == d[i];
  }

  lemma {:induction false} JoinSplit(ws: seq<string>, i: nat)
    requires i < |ws|
    ensures Join(ws[i..]) == ws[i] + (if i + 1 < |ws| then " " else "") + Join(ws[i + 1..])
  {
    assert ws[i..][1..] == ws[i + 1..] && ws[i..][0] == ws[i];
    if i + 1 == |ws| {
      assert ws[i + 1..] == [] && ws[i] + "" + "" == ws[i];
    }
  }

  method WriteWords(text: string, words: seq<string>) returns (out: string)
    ensures out == text + Join(words)
  {
    out := text;
    var i := 0;
    while i < |words|
      invariant 0 <= i <= |words|
      invariant out + Join(words[i..]) == text + Join(words)
    {
      JoinSplit(words, i);
      ghost var before := out;
      out := out + words[i];
      if i + 1 < |words| {
        out := out + " ";
      }
      assert out == before + (words[i] + (if i + 1 < |words| then " " else ""));
      Assoc(before, words[i] + (if i + 1 < |words| then " " else ""), Join(words[i + 1..]));
      i := i + 1;
    }
    assert words[i..] == [];
  }

  /** What the flusher writes for one node. */
  method WriteSentence(text: string, current: SentenceNode) returns (out: string)
    ensures out == text + (Join(current.words) + Tail(current.delimiter, current.next == null))
  {
    out := WriteWords(text, current.words);
    ghost var tail := Tail(current.delimiter, current.next == null);
    if current.delimiter == '\n' {
      out := out + "\n";
    } else if current.delimiter != ' ' || current.next != null {
      out := out + [current.delimiter, ' '];
    }
    assert out == text + Join(current.words) + tail;
    Assoc(text, Join(current.words), tail);
  }

  /** The flusher's walk along the list. */
  method FlushList(head: SentenceNode?, ghost nodes: seq<SentenceNode>) returns (text: string)
    requires Chain(head, nodes)
    ensures text == Flush(Contents(Values(nodes)))
  {
    text := "";
    var current := head;
    ghost var i := 0;
    ghost var d := Contents(Values(nodes));
    while current != null
      invariant Chain(head, nodes) && d == Contents(Values(nodes))
      invariant 0 <= i <= |nodes| && current == (if i < |nodes| then nodes[i] else null)
      invariant text + Flush(d[i..]) == Flush(d)
      decreases |nodes| - i
    {
      assert current == nodes[i] && nodes[i].next == (if i + 1 < |nodes| then nodes[i + 1] else null);
      assert Value(nodes[i]) == Node(current.id, current.words, current.delimiter);
      assert d[i] == Sentence(current.words, current.delimiter);
      FlushSplit(d, i);
      Assoc(text, Join(current.words) + Tail(current.delimiter, current.next == null), Flush(d[i + 1..]));
      text := WriteSentence(text, current);
      current := current.next;
      i := i + 1;
    }
    assert d[i..] == [];
  }

  // ---------- counting and searching ----------

  lemma {:induction false} WordsSplit(d: Doc, i: nat)
    requires i < |d|
    ensures |WordsOf(d[i..])| == |d[i].words| + |WordsOf(d[i + 1..])|
  {
    assert d[i..][1..] == d[i + 1..] && d[i..][0] == d[i];
  }

  /** The word count of a whole document. */
  method CountDocWords(head: SentenceNode?, ghost nodes: seq<SentenceNode>) returns (count: nat)
    requires Chain(head, nodes)
    ensures count == WordCount(Values(nodes))
  {
    count := 0;
    var current := head;
    ghost var i := 0;
    ghost var d := Contents(Values(nodes));
    while current != null
      invariant Chain(head, nodes) && d == Contents(Values(nodes))
      invariant 0 <= i <= |nodes| && current == (if i < |nodes| then nodes[i] else null)
      invariant count + |WordsOf(d[i..])| == |WordsOf(d)|
      decreases |nodes| - i
    {
      assert current == nodes[i] && nodes[i].next == (if i + 1 < |nodes| then nodes[i + 1] else null);
      WordsSplit(d, i);
      assert d[i] == Sentence(current.words, current.delimiter);
      count := count + |current.words|;
      current := current.next;
      i := i + 1;
    }
    assert d[i..] == [];
  }

  /** The node at index `n`, or null past the end. A negative index stays at the head. */
  method Nth(head: SentenceNode?, n: int, ghost nodes: seq<SentenceNode>) returns (target: SentenceNode?)
    requires Chain(head, nodes)
    ensures var i := if n < 0 then 0 else n; target == if i < |nodes| then nodes[i] else null
  {
    target := head;
    var i := 0;
    while i < n && target != null
      invariant Chain(head, nodes)
      invariant 0 <= i && (n >= 0 ==> i <= n) && (n < 0 ==> i == 0)
      invariant target == if i < |nodes| then nodes[i] else null
      decreases n - i
    {
      target := target.next;
      i := i + 1;
    }
  }

  /** Does the token have a character outside the delimiters? */
  method HasNonDelim(tok: string) returns (has: bool)
    ensures has == HasText(tok)
  {
    for i := 0 to |tok|
      invariant forall j | 0 <= j < i :: IsDelim(tok[j])
    {
      if !IsDelim(tok[i]) {
        return true;
      }
    }
    has := false;
  }

  /** The word counter over the tokens of a text. */
  method CountWordsInString(s: string) returns (count: nat)
    ensures count == CountWords(s)
  {
    var toks := Tokens(s);
    count := 0;
    var t := 0;
    while t < |toks|
      invariant 0 <= t <= |toks| && count + CountText(toks[t..]) == CountText(toks)
    {
      var has := HasNonDelim(toks[t]);
      assert toks[t..][0] == toks[t] && toks[t..][1..] == toks[t + 1..];
      if has {
        count := count + 1;
      }
      t := t + 1;
    }
    assert toks[t..] == [];
  }

  // ---------- the word array of a commit ----------

  /** One step of room at `at`, by moving the elements behind it. */
  method ShiftRight(words: array<string>, at: nat, idx: nat)
    requires at <= idx < words.Length
    modifies words
    ensures words[..at] == old(words[..at])
    ensures words[at + 1..idx + 1] == old(words[at..idx])
  {
    var s := idx;
    while s > at
      invariant at <= s <= idx
      invariant words[..s] == old(words[..s])
      invariant words[s + 1..idx + 1] == old(words[s..idx])
    {
      words[s] := words[s - 1];
      assert old(words[s - 1..idx]) == [old(words[s - 1])] + old(words[s..idx]);
      assert words[s..idx + 1] == [words[s]] + words[s + 1..idx + 1];
      s := s - 1;
    }
  }

  /** Make room and store the token. */
  method InsertToken(words: array<string>, at: nat, idx: nat, tok: string)
    requires at <= idx < words.Length
    modifies words
    ensures words[..idx + 1] == InsertAt(old(words[..idx]), at, [tok])
  {
    ShiftRight(words, at, idx);
    words[at] := tok;
    assert words[..idx + 1] == words[..at] + [words[at]] + words[at + 1..idx + 1];
  }

  /** `realloc`: a larger array with the same contents. */
  method Grow(words: array<string>, length: nat) returns (larger: array<string>)
    requires words.Length <= length
    ensures fresh(larger) && larger.Length == length && larger[..words.Length] == words[..]
  {
    larger := new string[length];
    forall i | 0 <= i < words.Length {
      larger[i] := words[i];
    }
  }

  /** Insert one token, doubling the array when it is full. */
  method InsertGrowing(words: array<string>, capacity: nat, idx: nat, at: nat, tok: string)
    returns (words': array<string>, capacity': nat)
    requires words.Length == capacity + 1 && at <= idx <= capacity && capacity > 0
    modifies words
    ensures words' == words || fresh(words')
    ensures words'.Length == capacity' + 1 && idx + 1 <= capacity'
    ensures words'[..idx + 1] == InsertAt(old(words[..idx]), at, [tok])
  {
    words', capacity' := words, capacity;
    if idx + 1 > capacity' {
      capacity' := capacity' * 2;
      words' := Grow(words', capacity' + 1);
    }
    assert words'[..idx] == old(words[..idx]);
    InsertToken(words', at, idx, tok);
  }

  /** The array after the first `t` tokens. */
  ghost function Inserted(ws: seq<string>, at: nat, toks: seq<string>, t: nat): seq<string>
    requires at <= |ws| && t <= |toks|
  {
    InsertAt(ws, at, toks[..t])
  }

  /** Insert the tokens one by one at `at`. */
  method InsertTokens(words: array<string>, capacity: nat, idx: nat, at: nat, toks: seq<string>)
    returns (words': array<string>, capacity': nat, idx': nat)
    requires words.Length == capacity + 1 && at <= idx <= capacity && capacity > 0
    modifies words
    ensures words' == words || fresh(words')
    ensures words'.Length == capacity' + 1 && idx' <= capacity' && capacity' > 0
    ensures words'[..idx'] == InsertAt(old(words[..idx]), at, toks)
  {
    words', capacity', idx' := words, capacity, idx;
    ghost var ws := words[..idx];
    var t := 0;
    var insertAt := at;
    assert toks[..0] == [];
    while t < |toks|
      invariant 0 <= t <= |toks| && insertAt == at + t <= idx' <= capacity'
      invariant words' == words || fresh(words')
      invariant words'.Length == capacity' + 1 && capacity' > 0
      invariant words'[..idx'] == Inserted(ws, at, toks, t)
    {
      InsertOne(ws, at, toks, t, words'[..idx']);
      words', capacity' := InsertGrowing(words', capacity', idx', insertAt, toks[t]);
      insertAt := insertAt + 1;
      idx' := idx' + 1;
      t := t + 1;
    }
    assert toks[..t] == toks;
  }

  lemma InsertOne(ws: seq<string>, at: nat, toks: seq<string>, t: nat, before: seq<string>)
    requires at <= |ws| && t < |toks| && before == Inserted(ws, at, toks, t)
    ensures InsertAt(before, at + t, [toks[t]]) == Inserted(ws, at, toks, t + 1)
  {
    assert before[..at + t] == ws[..at] + toks[..t] && before[at + t..] == ws[at..];
    assert toks[..t + 1] == toks[..t] + [toks[t]];
  }

  /** The token array of a commit: the sentence's words with every queued edit spliced in. */
  method SpliceEdits(ws: seq<string>, edits: seq<Edit>) returns (ok: bool, words: array<string>, idx: nat)
    ensures fresh(words) && idx <= words.Length
    ensures ok <==> ApplyEdits(ws, edits).Some?
    ensures ok ==> words[..idx] == ApplyEdits(ws, edits).value
  {
    var capacity := |ws| + 256 + |edits| * 10;
    words := new string[capacity + 1];
    idx := 0;
    while idx < |ws|
      invariant 0 <= idx <= |ws| && words[..idx] == ws[..idx]
    {
      words[idx] := ws[idx];
      idx := idx + 1;
    }
    assert words[..idx] == ws && edits[0..] == edits;
    var i := 0;
    while i < |edits|
      invariant 0 <= i <= |edits| && fresh(words) && words.Length == capacity + 1 && idx <= capacity && capacity > 0
      invariant ApplyEdits(words[..idx], edits[i..]) == ApplyEdits(ws, edits)
    {
      var insertAt := edits[i].index;
      assert edits[i..][1..] == edits[i + 1..];
      if insertAt < 0 || insertAt > idx {
        return false, words, idx;
      }
      words, capacity, idx := InsertTokens(words, capacity, idx, insertAt, Tokens(edits[i].content));
      i := i + 1;
    }
    ok := true;
  }

  // ---------- the rebuilt run ----------

  /** Append a finished node to the run. */
  method AppendNode(first: SentenceNode?, last: SentenceNode?, node: SentenceNode, ghost run: seq<SentenceNode>)
    returns (first': SentenceNode, last': SentenceNode, ghost run': seq<SentenceNode>)
    requires Chain(first, run) && last == (if run == [] then null else run[|run| - 1])
    requires node !in run && node.next == null
    modifies last
    ensures run' == run + [node] && Chain(first', run') && last' == node
    ensures forall n | n in run' :: Value(n) == old(Value(n))
    ensures node.next == null
  {
    if last == null {
      first' := node;
    } else {
      first' := first;
      last.next := node;
    }
    last' := node;
    run' := run + [node];
    assert forall i | 0 <= i < |run| - 1 :: run[i].next == run[i + 1];
  }

  /** A finished run carrying `d`. */
  ghost predicate Building(first: SentenceNode?, last: SentenceNode?, run: seq<SentenceNode>, d: Doc, base: nat)
    reads run
  {
    Chain(first, run) && last == (if run == [] then null else run[|run| - 1]) && Built(run, d, base)
  }

  /** A finished run and the node being filled: together they carry `d`. */
  ghost predicate Filling(first: SentenceNode?, last: SentenceNode?, node: SentenceNode,
                          run: seq<SentenceNode>, d: Doc, base: nat)
    reads run, node
  {
    && Chain(first, run) && last == (if run == [] then null else run[|run| - 1])
    && node !in run && node.next == null
    && Built(run + [node], d, base)
  }

  /** Append the node being filled and start an empty one with delimiter `c`. */
  method NextSentence(first: SentenceNode?, last: SentenceNode?, node: SentenceNode, c: char,
                      ghost run: seq<SentenceNode>, ghost d: Doc, ghost base: nat)
    returns (first': SentenceNode, last': SentenceNode, node': SentenceNode, ghost run': seq<SentenceNode>)
    requires Filling(first, last, node, run, d, base)
    modifies last
    ensures run' == run + [node] && last' == node && fresh(node')
    ensures Filling(first', last', node', run', d + [Sentence([], c)], base)
  {
    assert forall i | 0 <= i < |run + [node]| :: Value((run + [node])[i]) == Node(base + i, d[i].words, d[i].delim);
    first', last', run' := AppendNode(first, last, node, run);
    node' := new SentenceNode(base + |run'|, c);
    ghost var d' := d + [Sentence([], c)];
    forall i | 0 <= i < |run' + [node']|
      ensures Value((run' + [node'])[i]) == Node(base + i, d'[i].words, d'[i].delim)
    {
      assert i < |run'| ==> (run' + [node'])[i] == (run + [node])[i];
    }
  }

  /** The text of a token ends the words of the sentence being filled; its first mark ends it. */
  method EndWithMark(first: SentenceNode?, last: SentenceNode?, node: SentenceNode, t: string,
                     ghost run: seq<SentenceNode>, ghost d: Doc, ghost base: nat)
    requires Filling(first, last, node, run, d, base) && d != [] && Marks(t) != ""
    modifies node
    ensures Filling(first, last, node, run, d[..|d| - 1] + [Sentence(WithHead(d[|d| - 1].words, t), Marks(t)[0])], base)
  {
    var before := Head(t);
    HeadIsPrefix(t);
    assert (run + [node])[|run|] == node;
    assert Value((run + [node])[|run|]) == Node(base + |run|, d[|run|].words, d[|run|].delim);
    if before != "" {
      node.words := node.words + [before];
    }
    node.delimiter := t[|before|];
    ghost var d' := d[..|d| - 1] + [Sentence(WithHead(d[|d| - 1].words, t), Marks(t)[0])];
    forall i | 0 <= i < |run + [node]|
      ensures Value((run + [node])[i]) == Node(base + i, d'[i].words, d'[i].delim)
    {
      assert i < |run| ==> (run + [node])[i] == run[i];
    }
  }

  /** The first mark is behind, one empty sentence for each further mark is to come. */
  lemma MarksAhead(d: Doc, words: seq<string>, t: string)
    requires Marks(t) != ""
    ensures |Head(t)| < |t|
    ensures d + [Sentence(WithHead(words, t), Marks(t)[0])] + EmptySentences(LeadingDelims(t[|Head(t)| + 1..]))
         == d + Closing(words, t)
  {
    var h := |Head(t)|;
    assert t[h..][1..] == t[h + 1..];
    Assoc(d, [Sentence(WithHead(words, t), Marks(t)[0])], EmptySentences(Marks(t)[1..]));
  }

  lemma NextMark(done: Doc, t: string, r: nat)
    requires r < |t| && IsDelim(t[r])
    ensures done + EmptySentences(LeadingDelims(t[r..]))
         == done + [Sentence([], t[r])] + EmptySentences(LeadingDelims(t[r + 1..]))
  {
    assert t[r..][1..] == t[r + 1..];
    Assoc(done, [Sentence([], t[r])], EmptySentences(LeadingDelims(t[r + 1..])));
  }

  /** Close the sentence being filled at a token with marks, with one empty sentence for each
      further mark; the last of them is left to be appended. */
  method CloseSentence(first: SentenceNode?, last: SentenceNode?, node: SentenceNode, t: string,
                       ghost run: seq<SentenceNode>, ghost d: Doc, ghost words: seq<string>, ghost delim: char,
                       ghost base: nat)
    returns (first': SentenceNode?, last': SentenceNode?, node': SentenceNode, ghost run': seq<SentenceNode>)
    requires Filling(first, last, node, run, d + [Sentence(words, delim)], base) && Marks(t) != ""
    modifies last, node
    ensures Filling(first', last', node', run', d + Closing(words, t), base)
    ensures forall n | n in run' + [node'] :: n in run || n == node || fresh(n)
    ensures (node' == node || fresh(node')) && (last' == last || last' == node || fresh(last'))
  {
    MarksAhead(d, words, t);
    EndWithMark(first, last, node, t, run, d + [Sentence(words, delim)], base);
    ghost var done := d + [Sentence(WithHead(words, t), Marks(t)[0])];
    assert (d + [Sentence(words, delim)])[..|d|] == d;
    first', last', node', run' := AddMarks(first, last, node, t, |Head(t)| + 1, run, done, base);
  }

  /** The loop over the further marks. */
  method AddMarks(first: SentenceNode?, last: SentenceNode?, node: SentenceNode, t: string, from: nat,
                  ghost run: seq<SentenceNode>, ghost d: Doc, ghost base: nat)
    returns (first': SentenceNode?, last': SentenceNode?, node': SentenceNode, ghost run': seq<SentenceNode>)
    requires Filling(first, last, node, run, d, base) && from <= |t|
    modifies last, node
    ensures Filling(first', last', node', run', d + EmptySentences(LeadingDelims(t[from..])), base)
    ensures forall n | n in run' + [node'] :: n in run || n == node || fresh(n)
    ensures (node' == node || fresh(node')) && (last' == last || last' == node || fresh(last'))
  {
    first', last', node', run' := first, last, node, run;
    ghost var done := d;
    var r := from;
    while r < |t| && IsDelim(t[r])
      invariant from <= r <= |t|
      invariant Filling(first', last', node', run', done, base)
      invariant done + EmptySentences(LeadingDelims(t[r..])) == d + EmptySentences(LeadingDelims(t[from..]))
      invariant (node' == node || fresh(node')) && (last' == last || last' == node || fresh(last'))
      invariant forall n | n in run' :: n in run || n == node || fresh(n)
    {
      NextMark(done, t, r);
      first', last', node', run' := NextSentence(first', last', node', t[r], run', done, base);
      done := done + [Sentence([], t[r])];
      r := r + 1;
    }
    assert done + [] == done;
  }

  /** The inner loop: tokens without a mark become words of the sentence being filled. */
  method FillWords(words: seq<string>, cur: nat, node: SentenceNode, ghost first: SentenceNode?,
                   ghost last: SentenceNode?, ghost run: seq<SentenceNode>, ghost d: Doc, ghost delim: char,
                   ghost base: nat)
    returns (cur': nat, ghost acc: seq<string>)
    requires cur < |words| && Filling(first, last, node, run, d + [Sentence([], delim)], base)
    modifies node
    ensures cur <= cur' <= |words| && (cur' < |words| ==> Marks(words[cur']) != "") && (cur' > cur ==> acc != [])
    ensures Filling(first, last, node, run, d + [Sentence(acc, delim)], base)
    ensures Split(words[cur'..], acc, delim) == Split(words[cur..], [], delim)
  {
    cur', acc := cur, [];
    while cur' < |words|
      invariant cur <= cur' <= |words| && (cur' > cur ==> acc != [])
      invariant Filling(first, last, node, run, d + [Sentence(acc, delim)], base)
      invariant Split(words[cur'..], acc, delim) == Split(words[cur..], [], delim)
    {
      var t := words[cur'];
      SplitStep(words, cur', acc, delim, d);
      if |Head(t)| < |t| {
        return;
      }
      AddWord(node, t, first, last, run, d, acc, delim, base);
      acc := acc + [t];
      cur' := cur' + 1;
    }
  }

  /** Fill one sentence, up to a token with marks or the end of the array. */
  method FillSentence(words: seq<string>, cur: nat, delim: char, first: SentenceNode?, last: SentenceNode?,
                      ghost run: seq<SentenceNode>, ghost d: Doc, ghost base: nat)
    returns (cur': nat, first': SentenceNode?, last': SentenceNode?, node: SentenceNode,
             ghost run': seq<SentenceNode>, ghost d': Doc)
    requires cur < |words|
    requires Building(first, last, run, d, base)
    modifies last
    ensures cur < cur' <= |words| && fresh(node) && (last' == last || (last' != null && fresh(last')))
    ensures forall n | n in run' :: n in run || fresh(n)
    ensures Filling(first', last', node, run', d', base)
    ensures d' + Split(words[cur'..], [], delim) == d + Split(words[cur..], [], delim)
  {
    node := new SentenceNode(base + |run|, delim);
    NewFilling(first, last, node, run, d, delim, base);
    ghost var acc;
    cur', acc := FillWords(words, cur, node, first, last, run, d, delim, base);
    if cur' == |words| {
      first', last', run', d' := first, last, run, d + [Sentence(acc, delim)];
      assert words[cur'..] == [] && d' + [] == d';
    } else {
      SplitStep(words, cur', acc, delim, d);
      d' := d + Closing(acc, words[cur']);
      first', last', node, run' := CloseSentence(first, last, node, words[cur'], run, d, acc, delim, base);
      cur' := cur' + 1;
    }
  }

  lemma SplitStep(words: seq<string>, cur: nat, acc: seq<string>, delim: char, d: Doc)
    requires cur < |words|
    ensures var t := words[cur];
            && (Marks(t) == "" <==> |Head(t)| == |t|)
            && (Marks(t) == "" ==> Split(words[cur..], acc, delim) == Split(words[cur + 1..], acc + [t], delim))
            && (Marks(t) != "" ==> d + Closing(acc, t) + Split(words[cur + 1..], [], delim)
                                   == d + Split(words[cur..], acc, delim))
  {
    var t := words[cur];
    assert words[cur..][1..] == words[cur + 1..] && words[cur..][0] == t;
    MarksIffDelim(t);
    HeadIsPrefix(t);
    if Marks(t) != "" {
      Assoc(d, Closing(acc, t), Split(words[cur + 1..], [], delim));
    }
  }

  lemma NewFilling(first: SentenceNode?, last: SentenceNode?, node: SentenceNode,
                   run: seq<SentenceNode>, d: Doc, delim: char, base: nat)
    requires Building(first, last, run, d, base)
    requires node !in run && node.next == null && Value(node) == Node(base + |run|, [], delim)
    ensures Filling(first, last, node, run, d + [Sentence([], delim)], base)
  {
    var d' := d + [Sentence([], delim)];
    forall i | 0 <= i < |run + [node]|
      ensures Value((run + [node])[i]) == Node(base + i, d'[i].words, d'[i].delim)
    {
      assert i < |run| ==> (run + [node])[i] == run[i];
    }
  }

  /** One turn of the outer loop: fill a sentence and append it. */
  method AddSentence(words: seq<string>, cur: nat, delim: char, first: SentenceNode?, last: SentenceNode?,
                     ghost run: seq<SentenceNode>, ghost d: Doc, ghost base: nat)
    returns (cur': nat, first': SentenceNode, last': SentenceNode, ghost run': seq<SentenceNode>, ghost d': Doc)
    requires cur < |words|
    requires Building(first, last, run, d, base)
    modifies last
    ensures cur < cur' <= |words| && fresh(last') && forall n | n in run' :: n in run || fresh(n)
    ensures Building(first', last', run', d', base)
    ensures d' + Split(words[cur'..], [], delim) == d + Split(words[cur..], [], delim)
  {
    var f, l, node;
    cur', f, l, node, run', d' := FillSentence(words, cur, delim, first, last, run, d, base);
    assert l != null ==> l in run';
    first', last', run' := AppendFilled(f, l, node, run', d', base);
  }

  /** The splitting loops of a commit: the run of nodes that replaces the sentence. */
  method BuildRun(words: seq<string>, delim: char, ghost base: nat)
    returns (first: SentenceNode?, last: SentenceNode?, ghost run: seq<SentenceNode>)
    ensures forall n | n in run :: fresh(n)
    ensures Chain(first, run) && last == (if run == [] then null else run[|run| - 1])
    ensures Values(run) == Fresh(Split(words, [], delim), base)
  {
    first, last, run := null, null, [];
    var cur := 0;
    ghost var d: Doc := [];
    assert words[0..] == words;
    while cur < |words|
      invariant 0 <= cur <= |words| && (last != null ==> fresh(last))
      invariant forall n | n in run :: fresh(n)
      invariant Building(first, last, run, d, base)
      invariant d + Split(words[cur..], [], delim) == Split(words, [], delim)
    {
      cur, first, last, run, d := AddSentence(words, cur, delim, first, last, run, d, base);
    }
    assert words[cur..] == [] && d + [] == d;
    BuiltValues(run, d, base);
  }

  /** One more word for the sentence being filled. */
  method AddWord(node: SentenceNode, t: string, ghost first: SentenceNode?, ghost last: SentenceNode?,
                 ghost run: seq<SentenceNode>, ghost d: Doc, ghost acc: seq<string>, ghost delim: char, ghost base: nat)
    requires Filling(first, last, node, run, d + [Sentence(acc, delim)], base)
    modifies node
    ensures Filling(first, last, node, run, d + [Sentence(acc + [t], delim)], base)
  {
    ghost var all, all' := d + [Sentence(acc, delim)], d + [Sentence(acc + [t], delim)];
    assert Value((run + [node])[|run|]) == Node(base + |run|, all[|run|].words, all[|run|].delim);
    node.words := node.words + [t];
    forall i | 0 <= i < |run + [node]|
      ensures Value((run + [node])[i]) == Node(base + i, all'[i].words, all'[i].delim)
    {
      assert i < |run| ==> (run + [node])[i] == run[i];
    }
  }

  method AppendFilled(first: SentenceNode?, last: SentenceNode?, node: SentenceNode,
                      ghost run: seq<SentenceNode>, ghost d: Doc, ghost base: nat)
    returns (first': SentenceNode, last': SentenceNode, ghost run': seq<SentenceNode>)
    requires Filling(first, last, node, run, d, base)
    modifies last
    ensures run' == run + [node] && Chain(first', run') && last' == node && Built(run', d, base)
  {
    first', last', run' := AppendNode(first, last, node, run);
  }
}
