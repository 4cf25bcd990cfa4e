/** Commits keep the invariant, whatever was queued, and what it gives over every run of handler calls. */
module EditRuns {
  import opened Document
  import opened Rebuild
  import opened EditEngine
  import opened EditInvariant

  // ---------- the commit step ----------

  /** What the session's edits make of a sentence. */
  ghost function Outcome(words: seq<string>, edits: seq<Edit>, delim: char): Doc {
    match ApplyEdits(words, edits)
    case None => [Sentence(words, delim)]
    case Some(toks) => Split(toks, [], delim)
  }

  /** The run of sentences the session's commit puts in the place of its sentence. */
  ghost function NewSentences(s: Server, sock: nat): Doc
    requires Live(s, sock)
  {
    Outcome(NodeOf(s, sock).words, s.sessions[sock].edits, NodeOf(s, sock).delim)
  }

  ghost function NewNodes(s: Server, sock: nat): seq<Node>
    requires Live(s, sock)
  {
    Relink(SlotOf(s, sock).nodes, Position(s, sock), Fresh(NewSentences(s, sock), s.nextId))
  }

  /** The document grew by as many words as the session counted. */
  ghost predicate CountsAgree(s: Server, sock: nat)
    requires Live(s, sock)
  {
    WordCount(NewNodes(s, sock)) - WordCount(SlotOf(s, sock).nodes) == s.sessions[sock].virt
  }

  /** The server a commit has built when it starts to close its session. */
  ghost function Committed(s: Server, sock: nat): Server
    requires Live(s, sock)
  {
    s.(docs := s.docs[s.sessions[sock].doc := SlotOf(s, sock).(nodes := NewNodes(s, sock))],
       nextId := s.nextId + |NewSentences(s, sock)|,
       disk := if CountsAgree(s, sock)
               then SaveFile(s.disk, SlotOf(s, sock).name, Flush(Contents(NewNodes(s, sock))))
               else s.disk)
  }

  /** An ETIRW always gets to its last step; only the count check decides on the file and the reply. */
  lemma EtirwIs(s: Server, sock: nat)
    requires Live(s, sock)
    ensures HandleEtirw(s, sock)
         == (Close(Committed(s, sock), sock), if CountsAgree(s, sock) then [Ok] else [ErrorInvalidSentence, Ok])
  {
    CommitReplays(SlotOf(s, sock), s.sessions[sock]);
    var session, p := s.sessions[sock], Position(s, sock);
    var r := Commit(s, session.doc, p, Replay(NodeOf(s, sock), session), session.virt);
    assert r == (Committed(s, sock), if CountsAgree(s, sock) then [] else [ErrorInvalidSentence]);
    assert [] + [Ok] == [Ok] && [ErrorInvalidSentence] + [Ok] == [ErrorInvalidSentence, Ok];
  }

  lemma DistinctIn(docs: seq<Slot>, nextId: nat, d: nat)
    requires IdsDistinct(docs, nextId) && d < |docs| && docs[d].Active?
    ensures forall q | 0 <= q < |docs[d].nodes| :: docs[d].nodes[q].id < nextId
    ensures forall i, j | 0 <= i < j < |docs[d].nodes| :: docs[d].nodes[i].id != docs[d].nodes[j].id
  {
    assert forall q | 0 <= q < |docs[d].nodes| :: At(docs, d, q) && docs[d].nodes[q].id < nextId;
    forall i, j | 0 <= i < j < |docs[d].nodes|
      ensures docs[d].nodes[i].id != docs[d].nodes[j].id
    {
      assert At(docs, d, i) && At(docs, d, j);
    }
  }

  /** The shape of the new sentences, and when there are none. */
  lemma NewSentencesFacts(s: Server, sock: nat)
    requires Inv(s) && Live(s, sock)
    ensures RunShaped(NewSentences(s, sock), NodeOf(s, sock).delim)
    ensures NewSentences(s, sock) == [] <==> NodeOf(s, sock).words == [] && EditTokens(s.sessions[sock].edits) == []
    ensures ApplyEdits(NodeOf(s, sock).words, s.sessions[sock].edits).Some?
  {
    SessionsAreLive(s, sock);
    CommitReplays(SlotOf(s, sock), s.sessions[sock]);
    NodeWords(SlotOf(s, sock).nodes, Position(s, sock));
    CommitRun(NodeOf(s, sock).words, s.sessions[sock].edits, NodeOf(s, sock).delim);
  }

  /** The list surgery keeps all other sentences exactly when the commit cuts nothing off. */
  lemma CommitKeepsOthersIff(s: Server, sock: nat)
    requires Inv(s) && Live(s, sock)
    ensures OthersKept(SlotOf(s, sock).nodes, Position(s, sock), NewNodes(s, sock)) <==> !Cuts(s, sock)
  {
    NewSentencesFacts(s, sock);
    DistinctIn(s.docs, s.nextId, s.sessions[sock].doc);
    OthersKeptIff(SlotOf(s, sock).nodes, Position(s, sock), NewSentences(s, sock), s.nextId);
  }

  /** A guarded commit keeps the sentences of the other sessions. */
  lemma HeldIsKept(s: Server, sock: nat, k: nat)
    requires Inv(s) && Live(s, sock) && Guard(s, Etirw(sock))
    requires k in s.sessions && k != sock && s.sessions[k].doc == s.sessions[sock].doc
    ensures Live(s, k) && NodeOf(s, k) in NewNodes(s, sock)
  {
    SessionsAreLive(s, k);
    assert s.sessions[k].node != s.sessions[sock].node;
    CommitKeepsOthersIff(s, sock);
    if Cuts(s, sock) {
      NewSentencesFacts(s, sock);
      assert Position(s, k) < Position(s, sock);
      assert NewNodes(s, sock)[Position(s, k)] == NodeOf(s, k);
    }
  }

  /** The other sessions of a committing server: their sentences are found as they were. */
  lemma CommittedSessions(s: Server, sock: nat, nodes': seq<Node>)
    requires Inv(s) && Live(s, sock)
    requires forall k | k in s.sessions && k != sock && s.sessions[k].doc == s.sessions[sock].doc ::
               Live(s, k) && NodeOf(s, k) in nodes'
    requires forall i, j | 0 <= i < j < |nodes'| :: nodes'[i].id != nodes'[j].id
    ensures var d := s.sessions[sock].doc;
            var docs' := s.docs[d := s.docs[d].(nodes := nodes')];
            && SessionsOk(docs', s.sessions, {sock})
            && Held(docs', s.sessions) == Held(s.docs, s.sessions)
            && UsersCounted(docs', s.sessions)
  {
    var d := s.sessions[sock].doc;
    var docs' := s.docs[d := s.docs[d].(nodes := nodes')];
    forall k | k in s.sessions
      ensures InDoc(docs', s.sessions[k]) && (k == sock || SessionOk(docs'[s.sessions[k].doc], s.sessions[k]))
      ensures DocName(docs', s.sessions[k].doc) == DocName(s.docs, s.sessions[k].doc)
    {
      var session := s.sessions[k];
      assert InDoc(s.docs, session) && SessionOk(s.docs[session.doc], session);
      if k != sock && session.doc == d {
        KeptIsFound(s.docs[d].nodes, nodes', session.node);
      }
    }
  }

  lemma CommittedInv(s: Server, sock: nat)
    requires Inv(s) && Live(s, sock) && Guard(s, Etirw(sock))
    ensures InvClosing(Committed(s, sock), {sock})
  {
    var slot, p, d, nodes' := SlotOf(s, sock), Position(s, sock), NewSentences(s, sock), NewNodes(s, sock);
    CommittedDocs(s, sock);
    DistinctIn(s.docs, s.nextId, s.sessions[sock].doc);
    RelinkIds(slot.nodes, p, d, s.nextId);
    forall k | k in s.sessions && k != sock && s.sessions[k].doc == s.sessions[sock].doc
      ensures Live(s, k) && NodeOf(s, k) in nodes'
    {
      HeldIsKept(s, sock, k);
    }
    CommittedSessions(s, sock, nodes');
  }

  /** Documents stay in order over every commit, guarded or not. */
  lemma CommittedDocs(s: Server, sock: nat)
    requires Inv(s) && Live(s, sock)
    ensures DocsOk(Committed(s, sock).docs, Committed(s, sock).nextId)
  {
    var slot, p, d := SlotOf(s, sock), Position(s, sock), NewSentences(s, sock);
    SessionsAreLive(s, sock);
    NewSentencesFacts(s, sock);
    FreshContents(d, s.nextId);
    RelinkShaped(slot.nodes, p, Fresh(d, s.nextId));
    DistinctIn(s.docs, s.nextId, s.sessions[sock].doc);
    RelinkIds(slot.nodes, p, d, s.nextId);
    DocsUpdate(s.docs, s.sessions[sock].doc, slot.(nodes := NewNodes(s, sock)), s.nextId, s.nextId + |d|);
  }

  lemma EtirwInv(s: Server, sock: nat)
    requires Inv(s) && Guard(s, Etirw(sock))
    ensures Inv(HandleEtirw(s, sock).0)
  {
    if sock in s.sessions {
      SessionsAreLive(s, sock);
      EtirwIs(s, sock);
      CommittedInv(s, sock);
      CloseInv(Committed(s, sock), sock);
    }
  }

  lemma DisconnectInv(s: Server, sock: nat)
    requires Inv(s)
    ensures Inv(HandleDisconnect(s, sock))
  {
    if sock in s.sessions {
      CloseInv(s, sock);
    }
  }

  /** Every guarded step keeps the invariant. */
  lemma StepInv(s: Server, e: Event)
    requires Inv(s) && Guard(s, e)
    ensures Inv(Step(s, e))
  {
    match e
    case Write(sock, name, sentence) => WriteInv(s, sock, name, sentence);
    case Update(sock, index, content) => UpdateInv(s, sock, index, content);
    case Etirw(sock) => EtirwInv(s, sock);
    case Disconnect(sock) => DisconnectInv(s, sock);
  }

  // ---------- runs ----------

  lemma {:induction false} RunInv(s: Server, es: seq<Event>)
    requires Inv(s) && Guarded(s, es)
    ensures Inv(Run(s, es))
    decreases es
  {
    if es != [] {
      StepInv(s, es[0]);
      RunInv(Step(s, es[0]), es[1..]);
    }
  }

  /** Over every guarded run from start-up, no two sessions hold the same sentence. */
  lemma MutualExclusion(disk: map<string, string>, es: seq<Event>, k: nat, l: nat)
    requires Guarded(Init(disk), es)
    requires var s := Run(Init(disk), es); k in s.sessions && l in s.sessions && k != l
    ensures var s := Run(Init(disk), es); s.sessions[k].node != s.sessions[l].node
  {
    InitInv(disk);
    RunInv(Init(disk), es);
  }

  /** Over every guarded run from start-up, a session has exactly one lock, on its own sentence; that
      sentence is in its document with the word count it had at the lock; and the document's users
      are its sessions, so it is not given up. */
  lemma SessionIsWhole(disk: map<string, string>, es: seq<Event>, k: nat)
    requires Guarded(Init(disk), es) && k in Run(Init(disk), es).sessions
    ensures var s := Run(Init(disk), es);
            && Target(s, s.sessions[k]).Some?
            && |Target(s, s.sessions[k]).value.words| == s.sessions[k].origCount
            && (exists i :: 0 <= i < |s.locks|
                  && s.locks[i] == Lock(s.docs[s.sessions[k].doc].name, s.sessions[k].node, k)
                  && forall j | 0 <= j < |s.locks| && j != i :: s.locks[j].Lock? ==> s.locks[j].sock != k)
            && s.docs[s.sessions[k].doc].users == |Editing(s.sessions, s.sessions[k].doc)| > 0
  {
    var s := Run(Init(disk), es);
    InitInv(disk);
    RunInv(Init(disk), es);
    SessionsAreLive(s, k);
    var held := Held(s.docs, s.sessions);
    assert HasLock(s.locks, held[k]);
    assert k in Editing(s.sessions, s.sessions[k].doc);
  }

  /** Conversely, over every guarded run from start-up, every lock is the one lock of a session: no
      sentence stays locked when its session is over. */
  lemma LockBelongsToSession(disk: map<string, string>, es: seq<Event>, i: nat)
    requires Guarded(Init(disk), es)
    requires var s := Run(Init(disk), es); i < |s.locks| && s.locks[i].Lock?
    ensures var s, lock := Run(Init(disk), es), Run(Init(disk), es).locks[i];
            && lock.sock in s.sessions && s.sessions[lock.sock].node == lock.node
            && InDoc(s.docs, s.sessions[lock.sock]) && s.docs[s.sessions[lock.sock].doc].name == lock.name
            && forall j | 0 <= j < |s.locks| && j != i && s.locks[j].Lock? :: s.locks[j].node != lock.node
  {
    var s := Run(Init(disk), es);
    InitInv(disk);
    RunInv(Init(disk), es);
    SessionsAreLive(s, s.locks[i].sock);
    forall j | 0 <= j < |s.locks| && j != i && s.locks[j].Lock?
      ensures s.locks[j].node != s.locks[i].node
    {
      assert s.locks[i].sock != s.locks[j].sock;
      assert s.sessions[s.locks[i].sock].node != s.sessions[s.locks[j].sock].node;
    }
  }

  /** A session's sentence pointer is never dangling: it is found in the document, with the word
      count it had when it was locked, so the commit's offset is 0. */
  lemma TargetIsAlwaysFound(disk: map<string, string>, es: seq<Event>, sock: nat)
    requires Guarded(Init(disk), es) && sock in Run(Init(disk), es).sessions
    ensures var s := Run(Init(disk), es);
            var target := Target(s, s.sessions[sock]);
            target.Some? && |target.value.words| - s.sessions[sock].origCount == 0
  {
    InitInv(disk);
    RunInv(Init(disk), es);
    SessionsAreLive(Run(Init(disk), es), sock);
  }

  // ---------- a locked sentence is frozen ----------

  /** The same sentence node under the same session. */
  ghost predicate SameHold(s: Server, s1: Server, k: nat) {
    && Live(s, k) && Live(s1, k)
    && s1.sessions[k] == s.sessions[k]
    && SlotOf(s1, k).name == SlotOf(s, k).name
    && NodeOf(s1, k) == NodeOf(s, k)
  }

  lemma LoadFrame(s: Server, name: string, d: nat)
    requires d < |s.docs| && s.docs[d].Active?
    ensures var s1 := FindOrLoad(s, name).0;
            && |s1.docs| == |s.docs| && s1.docs[d] == s.docs[d]
            && s1.sessions == s.sessions && s1.locks == s.locks && s1.disk == s.disk
  {
  }

  lemma WriteDocs(s: Server, e: Event, d: nat)
    requires Guard(s, e) && e.Write? && d < |s.docs| && s.docs[d].Active?
    ensures var s1 := Step(s, e);
            && |s1.docs| == |s.docs| && s1.docs[d].Active? && s1.disk == s.disk
            && s1.docs[d].name == s.docs[d].name && s1.docs[d].nodes == s.docs[d].nodes
            && forall k | k in s.sessions :: k in s1.sessions && s1.sessions[k] == s.sessions[k]
  {
    LoadFrame(s, e.name, d);
    WriteCases(s, e.sock, e.name, e.sentence);
  }

  lemma WriteFrame(s: Server, e: Event, k: nat)
    requires Inv(s) && Guard(s, e) && e.Write? && k in s.sessions
    ensures SameHold(s, Step(s, e), k)
  {
    SessionsAreLive(s, k);
    WriteDocs(s, e, s.sessions[k].doc);
  }

  lemma CloseFrame(s: Server, sock: nat, k: nat)
    requires InvClosing(s, {sock}) && sock in s.sessions && k in s.sessions && k != sock
    ensures SameHold(s, Close(s, sock), k)
  {
    assert InDoc(s.docs, s.sessions[sock]);
    assert InDoc(s.docs, s.sessions[k]) && SessionOk(s.docs[s.sessions[k].doc], s.sessions[k]);
    CloseInv(s, sock);
    SessionsAreLive(Close(s, sock), k);
  }

  lemma CommittedFrame(s: Server, sock: nat, k: nat)
    requires Inv(s) && Live(s, sock) && Guard(s, Etirw(sock)) && k in s.sessions && k != sock
    ensures SameHold(s, Committed(s, sock), k)
  {
    SessionsAreLive(s, k);
    CommittedInv(s, sock);
    var s1 := Committed(s, sock);
    assert InDoc(s1.docs, s1.sessions[k]) && SessionOk(s1.docs[s1.sessions[k].doc], s1.sessions[k]);
    if s.sessions[k].doc == s.sessions[sock].doc {
      HeldIsKept(s, sock, k);
      DistinctIn(s1.docs, s1.nextId, s.sessions[sock].doc);
      KeptIsFound(SlotOf(s, sock).nodes, NewNodes(s, sock), s.sessions[k].node);
    }
  }

  lemma SameHoldTrans(s: Server, s1: Server, s2: Server, k: nat)
    requires SameHold(s, s1, k) && SameHold(s1, s2, k)
    ensures SameHold(s, s2, k)
  {
  }

  /** Whatever another socket does, a session's sentence stays as it was locked. */
  lemma StepFrame(s: Server, e: Event, k: nat)
    requires Inv(s) && Guard(s, e) && k in s.sessions && e.sock != k
    ensures SameHold(s, Step(s, e), k)
  {
    SessionsAreLive(s, k);
    match e
    case Write(_, _, _) => WriteFrame(s, e, k);
    case Update(_, _, _) =>
    case Etirw(sock) =>
      if sock in s.sessions {
        SessionsAreLive(s, sock);
        EtirwIs(s, sock);
        CommittedInv(s, sock);
        CommittedFrame(s, sock, k);
        CloseFrame(Committed(s, sock), sock, k);
        SameHoldTrans(s, Committed(s, sock), Step(s, e), k);
      }
    case Disconnect(sock) =>
      if sock in s.sessions {
        CloseFrame(s, sock, k);
      }
  }

  /** A locked sentence keeps its words and delimiter over every run of the other sockets. */
  lemma {:induction false} LockedSentenceIsFrozen(s: Server, es: seq<Event>, k: nat)
    requires Inv(s) && Guarded(s, es) && k in s.sessions
    requires forall e | e in es :: e.sock != k
    ensures SameHold(s, Run(s, es), k)
    decreases es
  {
    SessionsAreLive(s, k);
    if es != [] {
      assert es[0] in es;
      StepInv(s, es[0]);
      StepFrame(s, es[0], k);
      LockedSentenceIsFrozen(Step(s, es[0]), es[1..], k);
      SameHoldTrans(s, Step(s, es[0]), Run(s, es), k);
    }
  }

  // ---------- exactly when a step keeps the invariant ----------

  lemma UnlockedSession(s: Server, sock: nat, d: nat, i: nat)
    requires At(s.docs, d, i) && FindFreeLock(s.locks, 0) == -1
    requires FindLock(s.locks, s.docs[d].name, s.docs[d].nodes[i].id, 0) == -1
    ensures !Inv(Grant(s, sock, d, s.docs[d].nodes[i]))
  {
    var s1 := Grant(s, sock, d, s.docs[d].nodes[i]);
    var held := Held(s1.docs, s1.sessions);
    assert sock in held && s1.locks == s.locks;
    if Inv(s1) {
      HolderIsLocked(s1.locks, held, sock);
    }
  }

  lemma TwoLocks(s: Server, sock: nat, d: nat, i: nat)
    requires Inv(s) && sock in s.sessions && At(s.docs, d, i) && FindFreeLock(s.locks, 0) != -1
    requires FindLock(s.locks, s.docs[d].name, s.docs[d].nodes[i].id, 0) == -1
    ensures !Inv(Grant(s, sock, d, s.docs[d].nodes[i]))
  {
    var s1 := Grant(s, sock, d, s.docs[d].nodes[i]);
    var held, f := Held(s.docs, s.sessions), FindFreeLock(s.locks, 0);
    assert HasLock(s.locks, held[sock]);
    var j :| 0 <= j < |s.locks| && s.locks[j] == held[sock];
    assert s1.locks[j].Lock? && s1.locks[f].Lock? && s1.locks[j].sock == s1.locks[f].sock == sock;
  }

  /** The end of a session frees its slot at most. */
  lemma CloseDocs(s: Server, sock: nat)
    requires sock in s.sessions && InDoc(s.docs, s.sessions[sock])
    ensures var s1 := Close(s, sock);
            && |s1.docs| == |s.docs| && s1.sessions == s.sessions - {sock} && s1.disk == s.disk
            && (forall d | 0 <= d < |s.docs| && d != s.sessions[sock].doc :: s1.docs[d] == s.docs[d])
            && (forall d | 0 <= d < |s.docs| && s1.docs[d].Active? ::
                  s.docs[d].Active? && s1.docs[d].name == s.docs[d].name && s1.docs[d].nodes == s.docs[d].nodes)
  {
  }

  /** After a cut, a sentence behind is not found any more. */
  lemma CutIsGone(s: Server, sock: nat, id: nat)
    requires Inv(s) && Live(s, sock) && Cuts(s, sock)
    requires FindNode(SlotOf(s, sock).nodes, id) > Position(s, sock)
    ensures FindNode(NewNodes(s, sock), id) == -1
  {
    NewSentencesFacts(s, sock);
    DistinctIn(s.docs, s.nextId, s.sessions[sock].doc);
    assert NewNodes(s, sock) == SlotOf(s, sock).nodes[..Position(s, sock)];
  }

  /** A commit that cuts off a held sentence leaves its session without it. */
  lemma CutOffHolder(s: Server, sock: nat)
    requires Inv(s) && Live(s, sock) && Cuts(s, sock) && HeldBehind(s, sock)
    ensures !Inv(HandleEtirw(s, sock).0)
  {
    var k :| k in s.sessions && s.sessions[k].doc == s.sessions[sock].doc
             && FindNode(SlotOf(s, sock).nodes, s.sessions[k].node) > Position(s, sock);
    EtirwIs(s, sock);
    CutIsGone(s, sock, s.sessions[k].node);
    CloseDocs(Committed(s, sock), sock);
    var s1 := Close(Committed(s, sock), sock);
    assert k in s1.sessions && s1.sessions[k] == s.sessions[k];
    if Inv(s1) {
      SessionsAreLive(s1, k);
    }
  }

  /** The guard is exact: a step keeps the invariant exactly when its guard holds. */
  lemma StepInvIff(s: Server, e: Event)
    requires Inv(s)
    ensures Inv(Step(s, e)) <==> Guard(s, e)
  {
    if Guard(s, e) {
      StepInv(s, e);
    } else if e.Etirw? {
      CutOffHolder(s, e.sock);
    } else {
      var (s1, d) := FindOrLoad(s, e.name);
      LoadInv(s, e.name);
      WriteCases(s, e.sock, e.name, e.sentence);
      var i := if e.sentence < 0 then 0 else e.sentence;
      if FindFreeLock(s.locks, 0) == -1 {
        UnlockedSession(s1, e.sock, d, i);
      } else {
        TwoLocks(s1, e.sock, d, i);
      }
    }
  }
}
