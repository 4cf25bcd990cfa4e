/** What a client gets for its messages: where queued text lands, what is answered, and what the file
    holds at the end, computed from the messages alone. */
module EditSessions {
  import opened Text
  import opened Document
  import opened Rebuild
  import opened Wrappers
  import opened EditEngine
  import opened EditInvariant
  import opened EditRuns
  import opened EditDisk
  import opened Confluence

  /** An update message. */
  datatype Insertion = Insertion(index: int, content: string)

  function Updates(sock: nat, us: seq<Insertion>): seq<Event> {
    if us == [] then [] else [Update(sock, us[0].index, us[0].content)] + Updates(sock, us[1..])
  }

  // ---------- the meaning of a list of updates ----------

  /** The sentence's tokens after the updates: each one whose index is at most `n` puts its tokens at that
      index; `n` is the number of words the client has seen or sent. */
  function Edited(ws: seq<string>, n: nat, us: seq<Insertion>): seq<string>
    requires n <= |ws|
    decreases us
  {
    if us == [] then ws
    else
      var i, ts := us[0].index, Tokens(us[0].content);
      CountTextBound(ts);
      if 0 <= i <= n then Edited(ws[..i] + ts + ws[i..], n + CountText(ts), us[1..]) else Edited(ws, n, us[1..])
  }

  /** The tokens of the accepted updates. */
  function Sent(n: nat, us: seq<Insertion>): seq<string>
    decreases us
  {
    if us == [] then []
    else
      var ts := Tokens(us[0].content);
      if 0 <= us[0].index <= n then ts + Sent(n + CountText(ts), us[1..]) else Sent(n, us[1..])
  }

  /** The answers: OK exactly for an index within the words seen or sent so far. */
  function Answers(n: nat, us: seq<Insertion>): seq<Reply>
    decreases us
  {
    if us == [] then []
    else if 0 <= us[0].index <= n then [Ok] + Answers(n + CountText(Tokens(us[0].content)), us[1..])
    else [Error] + Answers(n, us[1..])
  }

  // ---------- what the server does with them ----------

  /** An update of a live session: the answer, and the session's tokens if it is accepted. */
  lemma UpdateIs(s: Server, sock: nat, index: int, content: string)
    requires Inv(s) && sock in s.sessions
    ensures Live(s, sock)
    ensures var s1, ws, ts := Step(s, Update(sock, index, content)), NodeOf(s, sock).words, Tokens(content);
            var edits := s.sessions[sock].edits;
            var n := |ws| + CountText(EditTokens(edits));
            && ApplyEdits(ws, edits).Some? && n <= |ApplyEdits(ws, edits).value|
            && HandleUpdate(s, sock, index, content).1 == (if 0 <= index <= n then [Ok] else [Error])
            && Inv(s1) && Live(s1, sock) && s1.docs == s.docs && s1.disk == s.disk && s1.locks == s.locks
            && NodeOf(s1, sock) == NodeOf(s, sock) && s1.nextId == s.nextId
            && s1.sessions - {sock} == s.sessions - {sock} && s1.sessions[sock].doc == s.sessions[sock].doc
            && if 0 <= index <= n
               then && ApplyEdits(ws, s1.sessions[sock].edits)
                       == Some(ApplyEdits(ws, edits).value[..index] + ts + ApplyEdits(ws, edits).value[index..])
                    && EditTokens(s1.sessions[sock].edits) == EditTokens(edits) + ts
               else s1 == s
  {
    var session, e := s.sessions[sock], Edit(index, content);
    SessionsAreLive(s, sock);
    StepInv(s, Update(sock, index, content));
    CommitReplays(SlotOf(s, sock), session);
    VirtualIsCountText(session.edits);
    ReplaySize(NodeOf(s, sock).words, session.edits);
    if 0 <= index <= |NodeOf(s, sock).words| + session.virt {
      QueueIs(NodeOf(s, sock).words, session.edits, e);
    }
  }

  lemma ReplaySize(ws: seq<string>, edits: seq<Edit>)
    requires ApplyEdits(ws, edits).Some?
    ensures |ws| + CountText(EditTokens(edits)) <= |ApplyEdits(ws, edits).value|
  {
    ApplyEditsTokens(ws, edits);
    CountTextBound(EditTokens(edits));
    assert |multiset(ApplyEdits(ws, edits).value)| == |multiset(ws)| + |multiset(EditTokens(edits))|;
  }

  lemma QueueIs(ws: seq<string>, edits: seq<Edit>, e: Edit)
    requires ApplyEdits(ws, edits).Some? && 0 <= e.index <= |ApplyEdits(ws, edits).value|
    ensures var b, ts := ApplyEdits(ws, edits).value, Tokens(e.content);
            && ApplyEdits(ws, edits + [e]) == Some(b[..e.index] + ts + b[e.index..])
            && EditTokens(edits + [e]) == EditTokens(edits) + ts
  {
    var b, ts := ApplyEdits(ws, edits).value, Tokens(e.content);
    EditFitsIff(ws, edits, e);
    EditLands(ws, edits, e);
    EditTokensSnoc(edits, e);
    var a := ApplyEdits(ws, edits + [e]).value;
    assert a == a[..e.index] + a[e.index..e.index + |ts|] + a[e.index + |ts|..];
  }

  lemma {:induction false} EditTokensSnoc(edits: seq<Edit>, e: Edit)
    ensures EditTokens(edits + [e]) == EditTokens(edits) + Tokens(e.content)
  {
    if edits == [] {
      assert edits + [e] == [e] && [e][1..] == [];
      assert Tokens(e.content) + [] == Tokens(e.content) == [] + Tokens(e.content);
    } else {
      assert (edits + [e])[1..] == edits[1..] + [e];
      EditTokensSnoc(edits[1..], e);
      Assoc(Tokens(edits[0].content), EditTokens(edits[1..]), Tokens(e.content));
    }
  }

  function Replies(s: Server, sock: nat, us: seq<Insertion>): seq<Reply>
    decreases us
  {
    if us == [] then []
    else
      HandleUpdate(s, sock, us[0].index, us[0].content).1
      + Replies(Step(s, Update(sock, us[0].index, us[0].content)), sock, us[1..])
  }

  /** The words the client of a session has seen or sent. */
  ghost function Known(s: Server, sock: nat): (n: nat)
    requires Live(s, sock)
  {
    |NodeOf(s, sock).words| + CountText(EditTokens(s.sessions[sock].edits))
  }

  /** The sentence's tokens as the session would commit them now. */
  ghost function Queued(s: Server, sock: nat): (toks: seq<string>)
    requires Live(s, sock)
    ensures Known(s, sock) <= |toks|
  {
    CommitReplays(SlotOf(s, sock), s.sessions[sock]);
    ReplaySize(NodeOf(s, sock).words, s.sessions[sock].edits);
    ApplyEdits(NodeOf(s, sock).words, s.sessions[sock].edits).value
  }

  /** Nothing but the session itself differs. */
  ghost predicate OnlySession(s: Server, s1: Server, sock: nat) {
    && Live(s, sock) && Live(s1, sock) && NodeOf(s1, sock) == NodeOf(s, sock)
    && s1.docs == s.docs && s1.disk == s.disk && s1.locks == s.locks && s1.nextId == s.nextId
    && s1.sessions - {sock} == s.sessions - {sock} && s1.sessions[sock].doc == s.sessions[sock].doc
    && s1.sessions[sock].node == s.sessions[sock].node
  }

  /** What an update does to its session: its tokens at the index, if that is within the words known. */
  ghost predicate DidOne(s: Server, s1: Server, sock: nat, u: Insertion)
    requires Live(s, sock)
  {
    && Inv(s1) && OnlySession(s, s1, sock)
    && var ts := Tokens(u.content);
       if 0 <= u.index <= Known(s, sock)
       then && Queued(s1, sock) == Queued(s, sock)[..u.index] + ts + Queued(s, sock)[u.index..]
            && EditTokens(s1.sessions[sock].edits) == EditTokens(s.sessions[sock].edits) + ts
            && Known(s1, sock) == Known(s, sock) + CountText(ts)
       else s1 == s
  }

  lemma OneUpdate(s: Server, sock: nat, u: Insertion)
    requires Inv(s) && Live(s, sock)
    ensures DidOne(s, Step(s, Update(sock, u.index, u.content)), sock, u)
    ensures HandleUpdate(s, sock, u.index, u.content).1 == if 0 <= u.index <= Known(s, sock) then [Ok] else [Error]
  {
    UpdateIs(s, sock, u.index, u.content);
    CountTextConcat(EditTokens(s.sessions[sock].edits), Tokens(u.content));
  }

  /** What a list of updates does to its session. */
  ghost predicate DidAll(s: Server, s1: Server, sock: nat, us: seq<Insertion>)
    requires Live(s, sock)
  {
    && Inv(s1) && OnlySession(s, s1, sock)
    && Queued(s1, sock) == Edited(Queued(s, sock), Known(s, sock), us)
    && EditTokens(s1.sessions[sock].edits) == EditTokens(s.sessions[sock].edits) + Sent(Known(s, sock), us)
  }

  lemma DidMore(s: Server, s1: Server, s2: Server, sock: nat, us: seq<Insertion>)
    requires Live(s, sock) && us != [] && DidOne(s, s1, sock, us[0]) && DidAll(s1, s2, sock, us[1..])
    ensures DidAll(s, s2, sock, us)
  {
    Assoc(EditTokens(s.sessions[sock].edits), Tokens(us[0].content), Sent(Known(s1, sock), us[1..]));
  }

  /** A list of updates: what the session would commit, and that nothing else changes ... */
  lemma {:induction false} UpdatesAre(s: Server, sock: nat, us: seq<Insertion>)
    requires Inv(s) && Live(s, sock)
    ensures DidAll(s, Run(s, Updates(sock, us)), sock, us)
    decreases us
  {
    if us == [] {
      assert EditTokens(s.sessions[sock].edits) + [] == EditTokens(s.sessions[sock].edits);
    } else {
      var s1 := Step(s, Update(sock, us[0].index, us[0].content));
      OneUpdate(s, sock, us[0]);
      UpdatesAre(s1, sock, us[1..]);
      DidMore(s, s1, Run(s1, Updates(sock, us[1..])), sock, us);
      assert Updates(sock, us)[1..] == Updates(sock, us[1..]);
    }
  }

  /** ... and what is answered. */
  lemma {:induction false} AnswersAre(s: Server, sock: nat, us: seq<Insertion>)
    requires Inv(s) && Live(s, sock)
    ensures Replies(s, sock, us) == Answers(Known(s, sock), us)
    decreases us
  {
    if us != [] {
      OneUpdate(s, sock, us[0]);
      AnswersAre(Step(s, Update(sock, us[0].index, us[0].content)), sock, us[1..]);
    }
  }

  // ---------- the commit ----------

  /** The document with sentence `p` replaced by the edited one; all behind is gone if nothing is left. */
  function Rewritten(d: Doc, p: nat, toks: seq<string>): Doc
    requires p < |d|
  {
    if toks == [] then d[..p] else d[..p] + Split(toks, [], d[p].delim) + d[p + 1..]
  }

  /** The server accepts the commit: each token sent starts with text or has none, and nothing with words
      is cut off. */
  predicate Accepts(d: Doc, p: nat, toks: seq<string>, sent: seq<string>)
    requires p < |d|
  {
    AllCountable(sent) && (toks == [] ==> WordsOf(d[p + 1..]) == [])
  }

  /** The files after the commit: with the new text, and the old one as backup. */
  ghost predicate Saved(disk: map<string, string>, disk': map<string, string>, f: string, text: string) {
    && f in disk' && disk'[f] == text
    && (f in disk ==> f + ".bak" in disk' && disk'[f + ".bak"] == disk[f])
    && forall g | g != f && g != f + ".bak" :: (g in disk' <==> g in disk) && (g in disk ==> disk'[g] == disk[g])
  }

  lemma NewNodesAre(s: Server, sock: nat)
    requires Inv(s) && Live(s, sock)
    ensures NewSentences(s, sock) == Split(Queued(s, sock), [], NodeOf(s, sock).delim)
    ensures Contents(NewNodes(s, sock))
         == Rewritten(Contents(SlotOf(s, sock).nodes), Position(s, sock), Queued(s, sock))
  {
    var nodes, p, d := SlotOf(s, sock).nodes, Position(s, sock), NewSentences(s, sock);
    NewSentencesFacts(s, sock);
    NoTokensIff(nodes[p].words, s.sessions[sock].edits);
    FreshContents(d, s.nextId);
    if d == [] {
      assert Contents(nodes[..p]) == Contents(nodes)[..p];
    } else {
      RelinkContents(nodes, p, Fresh(d, s.nextId));
      assert Contents(nodes[..p]) == Contents(nodes)[..p] && Contents(nodes[p + 1..]) == Contents(nodes)[p + 1..];
    }
  }

  lemma AcceptsIff(s: Server, sock: nat)
    requires Inv(s) && Live(s, sock)
    ensures Acceptable(s, sock) <==> Accepts(Contents(SlotOf(s, sock).nodes), Position(s, sock), Queued(s, sock),
                                             EditTokens(s.sessions[sock].edits))
  {
    var nodes, p := SlotOf(s, sock).nodes, Position(s, sock);
    NewSentencesFacts(s, sock);
    NoTokensIff(nodes[p].words, s.sessions[sock].edits);
    assert Contents(nodes[p + 1..]) == Contents(nodes)[p + 1..];
  }

  /** A commit by its tokens: the answer, the files, and the document while it stays in memory. */
  lemma EtirwText(s: Server, sock: nat)
    requires Inv(s) && Live(s, sock)
    ensures var d, p, toks := Contents(SlotOf(s, sock).nodes), Position(s, sock), Queued(s, sock);
            var (s1, replies) := HandleEtirw(s, sock);
            var ok := Accepts(d, p, toks, EditTokens(s.sessions[sock].edits));
            && replies == (if ok then [Ok] else [ErrorInvalidSentence, Ok])
            && (if ok then Saved(s.disk, s1.disk, SlotOf(s, sock).name, Flush(Rewritten(d, p, toks)))
                else s1.disk == s.disk)
            && |s1.docs| == |s.docs|
            && (s1.docs[s.sessions[sock].doc].Active? ==>
                  Contents(s1.docs[s.sessions[sock].doc].nodes) == Rewritten(d, p, toks))
  {
    NewNodesAre(s, sock);
    AcceptsIff(s, sock);
    CountsAgreeIff(s, sock);
    EtirwIs(s, sock);
    CloseDocs(Committed(s, sock), sock);
    SaveFileFrame(s.disk, SlotOf(s, sock).name, Flush(Contents(NewNodes(s, sock))));
  }

  /** A session from its lock to its commit: the answers to its updates and its commit, and the file and
      the document afterwards, are functions of the sentence and the messages. */
  lemma SessionWrites(s: Server, sock: nat, us: seq<Insertion>)
    requires Inv(s) && Live(s, sock) && s.sessions[sock].edits == []
    ensures var d, p, ws := Contents(SlotOf(s, sock).nodes), Position(s, sock), NodeOf(s, sock).words;
            var toks, sent := Edited(ws, |ws|, us), Sent(|ws|, us);
            var s1 := Run(s, Updates(sock, us));
            var (s2, replies) := HandleEtirw(s1, sock);
            && Replies(s, sock, us) == Answers(|ws|, us)
            && replies == (if Accepts(d, p, toks, sent) then [Ok] else [ErrorInvalidSentence, Ok])
            && (if Accepts(d, p, toks, sent)
                then Saved(s.disk, s2.disk, SlotOf(s, sock).name, Flush(Rewritten(d, p, toks)))
                else s2.disk == s.disk)
            && |s2.docs| == |s.docs|
            && (s2.docs[s.sessions[sock].doc].Active? ==>
                  Contents(s2.docs[s.sessions[sock].doc].nodes) == Rewritten(d, p, toks))
  {
    UpdatesAre(s, sock, us);
    AnswersAre(s, sock, us);
    EtirwText(Run(s, Updates(sock, us)), sock);
    assert [] + Sent(|NodeOf(s, sock).words|, us) == Sent(|NodeOf(s, sock).words|, us);
  }

  // ---------- in any interleaving ----------

  /** A session's part of the outcome of an interleaving, from its messages alone. */
  lemma {:induction false} OutcomeOfMessages(session: Session, ws: seq<string>, delim: char, k: nat, us: seq<Insertion>)
    requires session.virt == CountText(EditTokens(session.edits)) && ApplyEdits(ws, session.edits).Some?
    ensures |ws| + session.virt <= |ApplyEdits(ws, session.edits).value|
    ensures SentenceOutcome(session, ws, delim, Updates(k, us) + [Etirw(k)])
         == Split(Edited(ApplyEdits(ws, session.edits).value, |ws| + session.virt, us), [], delim)
    decreases us
  {
    ReplaySize(ws, session.edits);
    if us == [] {
      assert Updates(k, us) + [Etirw(k)] == [Etirw(k)];
    } else {
      var own := Updates(k, us) + [Etirw(k)];
      var e := Edit(us[0].index, us[0].content);
      assert own[0] == Update(k, us[0].index, us[0].content) && own[1..] == Updates(k, us[1..]) + [Etirw(k)];
      if 0 <= e.index <= |ws| + session.virt {
        QueueIs(ws, session.edits, e);
        CountTextConcat(EditTokens(session.edits), Tokens(e.content));
        OutcomeOfMessages(Record(session, e.index, e.content), ws, delim, k, us[1..]);
      } else {
        OutcomeOfMessages(session, ws, delim, k, us[1..]);
      }
    }
  }

  /** Without a session, the messages of a socket are not answered and change nothing. */
  lemma IdleSocket(s: Server, sock: nat, index: int, content: string)
    requires sock !in s.sessions
    ensures HandleUpdate(s, sock, index, content) == (s, []) && HandleEtirw(s, sock) == (s, [])
    ensures HandleDisconnect(s, sock) == s
  {
  }

  // ---------- the answer to a WRITE ----------

  /** Some session holds that sentence of the file's document. */
  ghost predicate HeldAt(s: Server, f: string, i: nat) {
    exists k {:trigger Live(s, k)} :: k in s.sessions && Live(s, k) && SlotOf(s, k).name == f && Position(s, k) == i
  }

  ghost predicate IsOpen(s: Server, f: string) {
    exists d :: 0 <= d < |s.docs| && Holds(s.docs[d], f)
  }

  /** The document is open, or can be loaded. */
  ghost predicate CanOpen(s: Server, f: string) {
    IsOpen(s, f) || (f in s.disk && exists d :: 0 <= d < |s.docs| && s.docs[d].Empty?)
  }

  /** A sentence is found locked exactly when some session holds it. */
  lemma LockedIff(s: Server, d: nat, i: nat)
    requires Inv(s) && At(s.docs, d, i)
    ensures FindLock(s.locks, s.docs[d].name, s.docs[d].nodes[i].id, 0) != -1 <==> HeldAt(s, s.docs[d].name, i)
  {
    var f, id := s.docs[d].name, s.docs[d].nodes[i].id;
    var l := FindLock(s.locks, f, id, 0);
    if l != -1 {
      var k := s.locks[l].sock;
      SessionsAreLive(s, k);
      assert At(s.docs, s.sessions[k].doc, Position(s, k));
    }
    if HeldAt(s, f, i) {
      var k :| k in s.sessions && Live(s, k) && SlotOf(s, k).name == f && Position(s, k) == i;
      SessionsAreLive(s, k);
      assert s.docs[s.sessions[k].doc].name == s.docs[d].name;
      HolderIsLocked(s.locks, Held(s.docs, s.sessions), k);
    }
  }

  /** Which answer a WRITE gets: an error without a document, another past its end, a third for a sentence
      somebody holds, and the lock otherwise. */
  lemma WriteReplyIs(s: Server, sock: nat, f: string, sentence: int)
    requires Inv(s)
    ensures var (s1, d) := FindOrLoad(s, f);
            var i := if sentence < 0 then 0 else sentence;
            && (d != -1 <==> CanOpen(s, f))
            && (d != -1 ==> Holds(s1.docs[d], f) &&
                            Contents(s1.docs[d].nodes) == if IsOpen(s, f) then Contents(s.docs[d].nodes)
                                                          else Parse(s.disk[f]))
            && HandleWrite(s, sock, f, sentence).1
               == if !CanOpen(s, f) then Error
                  else if i >= |s1.docs[d].nodes| then ErrorInvalidSentence
                  else if HeldAt(s, f, i) then ErrorLocked
                  else OkLocked
  {
    LoadInv(s, f);
    var (s1, d) := FindOrLoad(s, f);
    var i := if sentence < 0 then 0 else sentence;
    if d != -1 {
      if !IsOpen(s, f) {
        FreshContents(Parse(s.disk[f]), s.nextId);
      }
      if i < |s1.docs[d].nodes| {
        assert At(s1.docs, d, i);
        LockedIff(s1, d, i);
        LoadHolds(s, f, i);
      }
    }
  }

  /** Loading a document takes and gives no sentence. */
  lemma LoadHolds(s: Server, f: string, i: nat)
    requires Inv(s)
    ensures HeldAt(FindOrLoad(s, f).0, f, i) <==> HeldAt(s, f, i)
  {
    var s1 := FindOrLoad(s, f).0;
    LoadInv(s, f);
    forall k | k in s.sessions
      ensures Live(s, k) && Live(s1, k) && SlotOf(s1, k) == SlotOf(s, k) && Position(s1, k) == Position(s, k)
    {
      SessionsAreLive(s, k);
      SessionsAreLive(s1, k);
      LoadFrame(s, f, s.sessions[k].doc);
    }
    if HeldAt(s1, f, i) {
      var k :| k in s1.sessions && Live(s1, k) && SlotOf(s1, k).name == f && Position(s1, k) == i;
      assert Live(s, k);
    }
    if HeldAt(s, f, i) {
      var k :| k in s.sessions && Live(s, k) && SlotOf(s, k).name == f && Position(s, k) == i;
      assert Live(s1, k);
    }
  }

  // ---------- from start-up ----------

  /** Opening a session: the sentence, the document and an empty queue. */
  lemma WriteOpens(s: Server, sock: nat, f: string, i: nat)
    requires Synced(s) && Guard(s, Write(sock, f, i)) && Grants(s, f, i)
    ensures var s1 := HandleWrite(s, sock, f, i).0;
            && Inv(s1) && Live(s1, sock) && s1.sessions[sock].edits == [] && s1.disk == s.disk
            && SlotOf(s1, sock).name == f && Position(s1, sock) == i && f in s.disk
            && Closed(Contents(SlotOf(s1, sock).nodes)) == Parse(s.disk[f])
            && ((forall d | 0 <= d < |s.docs| :: !Holds(s.docs[d], f)) ==>
                  Contents(SlotOf(s1, sock).nodes) == Parse(s.disk[f]))
  {
    WriteInv(s, sock, f, i);
    LoadInv(s, f);
    LoadSynced(s, f);
    WriteCases(s, sock, f, i);
    var (s0, d) := FindOrLoad(s, f);
    assert OnDisk(s0.docs[d], s0.disk) && At(s0.docs, d, i);
    SessionsAreLive(HandleWrite(s, sock, f, i).0, sock);
    FoundNode(s0.docs, s0.nextId, d, i);
    if forall d | 0 <= d < |s.docs| :: !Holds(s.docs[d], f) {
      FreshContents(Parse(s.disk[f]), s.nextId);
    }
  }

  /** From start-up, for every file, sentence and list of updates: the session's answers, and the file and
      its backup at the end. */
  lemma WholeSession(disk: map<string, string>, sock: nat, f: string, i: nat, us: seq<Insertion>)
    requires f in disk && i < |Parse(disk[f])|
    ensures var d, ws := Parse(disk[f]), Parse(disk[f])[i].words;
            var toks, sent := Edited(ws, |ws|, us), Sent(|ws|, us);
            var (s1, reply) := HandleWrite(Init(disk), sock, f, i);
            var s2 := Run(s1, Updates(sock, us));
            var (s3, replies) := HandleEtirw(s2, sock);
            && reply == OkLocked && Replies(s1, sock, us) == Answers(|ws|, us)
            && replies == (if Accepts(d, i, toks, sent) then [Ok] else [ErrorInvalidSentence, Ok])
            && (if Accepts(d, i, toks, sent) then Saved(disk, s3.disk, f, Flush(Rewritten(d, i, toks)))
                else s3.disk == disk)
  {
    InitSynced(disk);
    var s1 := HandleWrite(Init(disk), sock, f, i).0;
    InitGrants(disk, f, i);
    WriteCases(Init(disk), sock, f, i);
    WriteOpens(Init(disk), sock, f, i);
    assert Parse(disk[f])[i] == Sentence(NodeOf(s1, sock).words, NodeOf(s1, sock).delim);
    SessionWrites(s1, sock, us);
  }

  lemma InitGrants(disk: map<string, string>, f: string, i: nat)
    requires f in disk && i < |Parse(disk[f])|
    ensures Grants(Init(disk), f, i) && FindFreeLock(Init(disk).locks, 0) != -1
  {
    var s := Init(disk);
    assert s.docs[0].Empty? && s.locks[0].NoLock?;
    assert FindDoc(s.docs, f, 0) == -1 && FindEmpty(s.docs, 0) != -1 && FindFreeLock(s.locks, 0) != -1;
    var (s1, d) := FindOrLoad(s, f);
    assert FindLock(s1.locks, f, s1.docs[d].nodes[i].id, 0) == -1;
  }
}
