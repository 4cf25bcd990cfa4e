/** No commit loses or reorders words, whatever is queued. */
module EditWords {
  import opened Text
  import opened Document
  import opened Rebuild
  import opened EditEngine
  import opened EditInvariant
  import opened EditRuns
  import opened EditDisk

  /** The words a reader finds in a file. */
  function FileWords(text: string): seq<string> {
    WordsOf(Parse(text))
  }

  /** The words a reader would find in the document, were it written now. */
  function MemoryWords(nodes: seq<Node>): seq<string> {
    Pieces(WordsOf(Contents(nodes)))
  }

  /** The document of the file, if it is open, has all the words of the file, in order. */
  ghost predicate Carries(s: Server, f: string) {
    forall d {:trigger s.docs[d]} | 0 <= d < |s.docs| && Holds(s.docs[d], f) ::
      f in s.disk && Subsequence(FileWords(s.disk[f]), MemoryWords(s.docs[d].nodes))
  }

  /** Words behind the session's sentence. */
  ghost predicate WordsBehind(s: Server, sock: nat)
    requires Live(s, sock)
  {
    WordCount(SlotOf(s, sock).nodes[Position(s, sock) + 1..]) > 0
  }

  /** An accepted commit does not take the file for its backup, and a commit of the file itself does not
      cut off words while somebody else has it open. */
  ghost predicate WordsGuard(s: Server, e: Event, f: string) {
    && Guard(s, e)
    && (e.Etirw? && Live(s, e.sock) ==>
          && (Acceptable(s, e.sock) ==> BackupName(SlotOf(s, e.sock).name) != f)
          && (SlotOf(s, e.sock).name == f && Shared(s, e.sock) && Cuts(s, e.sock) ==> !WordsBehind(s, e.sock)))
  }

  ghost predicate WordsGuarded(s: Server, es: seq<Event>, f: string)
    decreases es
  {
    es == [] || (WordsGuard(s, es[0], f) && WordsGuarded(Step(s, es[0]), es[1..], f))
  }

  // ---------- the words of a commit ----------

  lemma RelinkKeepsWords(nodes: seq<Node>, p: nat, d: Doc, base: nat)
    requires p < |nodes| && Subsequence(nodes[p].words, WordsOf(d))
    requires d == [] ==> WordCount(nodes[p + 1..]) == 0
    ensures Subsequence(WordsOf(Contents(nodes)), WordsOf(Contents(Relink(nodes, p, Fresh(d, base)))))
  {
    var a, c := WordsOf(Contents(nodes[..p])), WordsOf(Contents(nodes[p + 1..]));
    SubsequenceRefl(a);
    RelinkWords(nodes, p, [nodes[p]]);
    if d != [] {
      FreshContents(d, base);
      RelinkWords(nodes, p, Fresh(d, base));
      SubsequenceRefl(c);
      SubsequenceConcat(a, nodes[p].words, a, WordsOf(d));
      SubsequenceConcat(a + nodes[p].words, c, a + WordsOf(d), c);
    } else {
      assert nodes[p].words == [] && a + [] + [] == a;
    }
  }

  /** Unless it cuts words off, a commit keeps the words of the document in memory. */
  lemma CommitKeepsWords(s: Server, sock: nat)
    requires Inv(s) && Live(s, sock) && (Cuts(s, sock) ==> !WordsBehind(s, sock))
    ensures Subsequence(MemoryWords(SlotOf(s, sock).nodes), MemoryWords(NewNodes(s, sock)))
  {
    var nodes, p := SlotOf(s, sock).nodes, Position(s, sock);
    SessionsAreLive(s, sock);
    NewSentencesFacts(s, sock);
    NodeWords(nodes, p);
    RebuildKeepsWords(nodes[p].words, s.sessions[sock].edits, nodes[p].delim);
    if p == |nodes| - 1 {
      assert nodes[p + 1..] == [];
    }
    RelinkKeepsWords(nodes, p, NewSentences(s, sock), s.nextId);
    PiecesMonotone(WordsOf(Contents(nodes)), WordsOf(Contents(NewNodes(s, sock))));
  }

  /** A document that is written is read back with the words it has in memory. */
  lemma WrittenWords(nodes: seq<Node>)
    requires Shaped(Contents(nodes))
    ensures FileWords(Flush(Contents(nodes))) == MemoryWords(nodes)
  {
    ParseFlushShaped(Contents(nodes));
    WordsOfClosed(Reread(Contents(nodes)));
    WordsOfReread(Contents(nodes));
  }

  /** A document just loaded has the words of its file. */
  lemma LoadedWords(text: string, base: nat)
    ensures MemoryWords(Fresh(Parse(text), base)) == FileWords(text)
  {
    ParseIsNormal(text);
    FreshContents(Parse(text), base);
    WellFormedIsShaped(Parse(text));
    WordsOfReread(Parse(text));
  }

  // ---------- one step ----------

  /** The file's words are still in it, and in its document. */
  ghost predicate WordsStay(s: Server, s1: Server, f: string) {
    && f in s.disk && f in s1.disk && Carries(s1, f)
    && Subsequence(FileWords(s.disk[f]), FileWords(s1.disk[f]))
  }

  lemma WriteKeepsWords(s: Server, e: Event, f: string)
    requires e.Write? && Carries(s, f) && f in s.disk
    ensures WordsStay(s, Step(s, e), f)
  {
    var (s1, d) := FindOrLoad(s, e.name);
    WriteCases(s, e.sock, e.name, e.sentence);
    SubsequenceRefl(FileWords(s.disk[f]));
    if e.name in s.disk {
      LoadedWords(s.disk[e.name], s.nextId);
    }
    forall i | 0 <= i < |s1.docs| && Holds(s1.docs[i], f)
      ensures Subsequence(FileWords(s.disk[f]), MemoryWords(s1.docs[i].nodes))
    {
      assert s1.docs[i] == s.docs[i] || i == d;
    }
  }

  /** The file after a commit of its document. */
  lemma OwnCommitKeepsWords(s: Server, sock: nat)
    requires Inv(s) && Live(s, sock) && (Cuts(s, sock) ==> !WordsBehind(s, sock))
    requires var f := SlotOf(s, sock).name;
             f in s.disk && Subsequence(FileWords(s.disk[f]), MemoryWords(SlotOf(s, sock).nodes))
    ensures var s1, f := Committed(s, sock), SlotOf(s, sock).name;
            && f in s1.disk && Subsequence(FileWords(s.disk[f]), FileWords(s1.disk[f]))
            && Subsequence(FileWords(s1.disk[f]), MemoryWords(NewNodes(s, sock)))
  {
    var f := SlotOf(s, sock).name;
    CommitKeepsWords(s, sock);
    SubsequenceTrans(FileWords(s.disk[f]), MemoryWords(SlotOf(s, sock).nodes), MemoryWords(NewNodes(s, sock)));
    SubsequenceRefl(FileWords(s.disk[f]));
    SubsequenceRefl(MemoryWords(NewNodes(s, sock)));
    CommittedDocs(s, sock);
    assert SlotShaped(Committed(s, sock).docs[s.sessions[sock].doc]);
    WrittenWords(NewNodes(s, sock));
  }

  /** The file after a commit of another document. */
  lemma OtherCommitKeepsFile(s: Server, sock: nat, f: string)
    requires Inv(s) && Live(s, sock) && SlotOf(s, sock).name != f && f in s.disk
    requires Acceptable(s, sock) ==> BackupName(SlotOf(s, sock).name) != f
    ensures f in Committed(s, sock).disk && Committed(s, sock).disk[f] == s.disk[f]
  {
    CountsAgreeIff(s, sock);
    SaveFileFrame(s.disk, SlotOf(s, sock).name, Flush(Contents(NewNodes(s, sock))));
  }

  /** A commit that cuts off words is rejected, and leaves the file as it is. */
  lemma CutIsRejected(s: Server, sock: nat)
    requires Inv(s) && Live(s, sock) && Cuts(s, sock) && WordsBehind(s, sock)
    ensures Committed(s, sock).disk == s.disk
  {
    CountsAgreeIff(s, sock);
  }

  lemma EtirwKeepsWords(s: Server, sock: nat, f: string)
    requires Inv(s) && Carries(s, f) && f in s.disk && WordsGuard(s, Etirw(sock), f) && sock in s.sessions
    ensures WordsStay(s, HandleEtirw(s, sock).0, f)
  {
    var d := s.sessions[sock].doc;
    EtirwSlots(s, sock);
    SubsequenceRefl(FileWords(s.disk[f]));
    if SlotOf(s, sock).name != f {
      OtherCommitKeepsFile(s, sock, f);
    } else {
      OnlyHolder(s, d, f);
      if Cuts(s, sock) && WordsBehind(s, sock) {
        CutIsRejected(s, sock);
      } else {
        OwnCommitKeepsWords(s, sock);
      }
    }
  }

  lemma OnlyHolder(s: Server, d: nat, f: string)
    requires Inv(s) && d < |s.docs| && Holds(s.docs[d], f)
    ensures forall i | 0 <= i < |s.docs| && Holds(s.docs[i], f) :: i == d
  {
    forall i | 0 <= i < |s.docs| && Holds(s.docs[i], f)
      ensures i == d
    {
      assert s.docs[i].name == s.docs[d].name;
    }
  }

  lemma StepKeepsWords(s: Server, e: Event, f: string)
    requires Inv(s) && Carries(s, f) && f in s.disk && WordsGuard(s, e, f)
    ensures WordsStay(s, Step(s, e), f)
  {
    SubsequenceRefl(FileWords(s.disk[f]));
    match e
    case Write(_, _, _) => WriteKeepsWords(s, e, f);
    case Update(_, _, _) =>
    case Etirw(sock) =>
      if sock in s.sessions {
        EtirwKeepsWords(s, sock, f);
      }
    case Disconnect(sock) =>
      if sock in s.sessions {
        SessionsAreLive(s, sock);
        CloseDocs(s, sock);
      }
  }

  // ---------- runs ----------

  /** Over every guarded run, whatever is queued, the words a file had are still in it, in order. */
  lemma {:induction false} NoWordIsLost(s: Server, es: seq<Event>, f: string)
    requires Inv(s) && Carries(s, f) && f in s.disk && WordsGuarded(s, es, f)
    ensures f in Run(s, es).disk
    ensures Subsequence(FileWords(s.disk[f]), FileWords(Run(s, es).disk[f]))
    decreases es
  {
    if es == [] {
      SubsequenceRefl(FileWords(s.disk[f]));
    } else {
      var s1 := Step(s, es[0]);
      StepInv(s, es[0]);
      StepKeepsWords(s, es[0], f);
      NoWordIsLost(s1, es[1..], f);
      SubsequenceTrans(FileWords(s.disk[f]), FileWords(s1.disk[f]), FileWords(Run(s, es).disk[f]));
    }
  }

  /** From start-up no document is open, so all words are carried. */
  lemma NoWordIsLostFromStart(disk: map<string, string>, es: seq<Event>, f: string)
    requires f in disk && WordsGuarded(Init(disk), es, f)
    ensures f in Run(Init(disk), es).disk
    ensures Subsequence(FileWords(disk[f]), FileWords(Run(Init(disk), es).disk[f]))
  {
    InitInv(disk);
    NoWordIsLost(Init(disk), es, f);
  }
}
