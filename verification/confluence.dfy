/** Concurrent sessions on distinct sentences: the order of their messages does not matter. */
module Confluence {
  import opened Text
  import opened Document
  import opened Rebuild
  import opened Wrappers
  import opened EditEngine
  import opened EditInvariant
  import opened EditRuns
  import opened EditDisk

  /** The events of one socket, in order. */
  ghost function Own(es: seq<Event>, sock: nat): seq<Event> {
    if es == [] then [] else (if es[0].sock == sock then [es[0]] else []) + Own(es[1..], sock)
  }

  /** What one session makes of its sentence, from its own messages alone. */
  ghost function SentenceOutcome(session: Session, words: seq<string>, delim: char, own: seq<Event>): Doc
    decreases own
  {
    if own == [] then [Sentence(words, delim)]
    else match own[0]
      case Write(_, _, _) => SentenceOutcome(session, words, delim, own[1..])
      case Update(_, index, content) =>
        var queued := 0 <= index <= |words| + session.virt;
        SentenceOutcome(if queued then Record(session, index, content) else session, words, delim, own[1..])
      case Etirw(_) => Outcome(words, session.edits, delim)
      case Disconnect(_) => [Sentence(words, delim)]
  }

  /** The session's messages end in a commit rather than a disconnect or nothing. */
  ghost predicate Commits(own: seq<Event>) {
    own != [] && (own[0].Etirw? || (!own[0].Disconnect? && Commits(own[1..])))
  }

  /** What becomes of one node: its holder's outcome, or the sentence as it is. */
  ghost function NodeOutcome(sessions: map<nat, Session>, node: Node, es: seq<Event>): Doc {
    if exists k :: k in sessions && sessions[k].node == node.id then
      var k :| k in sessions && sessions[k].node == node.id;
      SentenceOutcome(sessions[k], node.words, node.delim, Own(es, k))
    else [Sentence(node.words, node.delim)]
  }

  /** The document with every locked sentence replaced in place by its session's outcome. */
  ghost function Expand(sessions: map<nat, Session>, nodes: seq<Node>, es: seq<Event>): Doc {
    if nodes == [] then [] else NodeOutcome(sessions, nodes[0], es) + Expand(sessions, nodes[1..], es)
  }

  /** Some session on slot `d` commits. */
  ghost predicate SomeCommit(sessions: map<nat, Session>, d: nat, es: seq<Event>) {
    exists k :: k in sessions && sessions[k].doc == d && Commits(Own(es, k))
  }

  /** The event leaves the document of `f` to its sessions: it keeps the locks in order, is no WRITE for
      the document (which sentence an index names would depend on earlier commits), and cuts off no
      sentence of it. */
  ghost predicate Undisturbing(s: Server, e: Event, f: string) {
    && Guard(s, e)
    && (e.Write? ==> e.name != f)
    && (e.Etirw? && Live(s, e.sock) && SlotOf(s, e.sock).name == f ==> !Cuts(s, e.sock))
  }

  ghost predicate Undisturbed(s: Server, es: seq<Event>, f: string)
    decreases es
  {
    es == [] || (Undisturbing(s, es[0], f) && Undisturbed(Step(s, es[0]), es[1..], f))
  }

  /** A commit of the document is accepted, and no accepted commit takes its file for a backup. */
  ghost predicate Writes(s: Server, e: Event, f: string) {
    e.Etirw? && Live(s, e.sock) ==>
      && (SlotOf(s, e.sock).name == f ==> AllCountable(EditTokens(s.sessions[e.sock].edits)))
      && (Acceptable(s, e.sock) ==> BackupName(SlotOf(s, e.sock).name) != f)
  }

  ghost predicate AllWrites(s: Server, es: seq<Event>, f: string)
    decreases es
  {
    es == [] || (Writes(s, es[0], f) && AllWrites(Step(s, es[0]), es[1..], f))
  }

  ghost function FileOf(disk: map<string, string>, f: string): Option<string> {
    if f in disk then Some(disk[f]) else None
  }

  // ---------- facts about outcomes ----------

  lemma HolderOutcome(sessions: map<nat, Session>, node: Node, k: nat, es: seq<Event>)
    requires Exclusive(sessions) && k in sessions && sessions[k].node == node.id
    ensures NodeOutcome(sessions, node, es) == SentenceOutcome(sessions[k], node.words, node.delim, Own(es, k))
  {
  }

  lemma {:induction false} ExpandConcat(sessions: map<nat, Session>, a: seq<Node>, b: seq<Node>, es: seq<Event>)
    ensures Expand(sessions, a + b, es) == Expand(sessions, a, es) + Expand(sessions, b, es)
  {
    if a == [] {
      assert a + b == b;
    } else {
      assert (a + b)[1..] == a[1..] + b;
      ExpandConcat(sessions, a[1..], b, es);
      Assoc(NodeOutcome(sessions, a[0], es), Expand(sessions, a[1..], es), Expand(sessions, b, es));
    }
  }

  lemma {:induction false} ExpandSame(m: map<nat, Session>, m': map<nat, Session>, nodes: seq<Node>,
                                    es: seq<Event>, es': seq<Event>)
    requires forall i | 0 <= i < |nodes| :: NodeOutcome(m, nodes[i], es) == NodeOutcome(m', nodes[i], es')
    ensures Expand(m, nodes, es) == Expand(m', nodes, es')
  {
    if nodes != [] {
      assert nodes[0] == nodes[0];
      forall i | 0 <= i < |nodes[1..]|
        ensures NodeOutcome(m, nodes[1..][i], es) == NodeOutcome(m', nodes[1..][i], es')
      {
        assert nodes[1..][i] == nodes[i + 1];
      }
      ExpandSame(m, m', nodes[1..], es, es');
    }
  }

  /** Nodes whose holders do not commit stay as they are. */
  lemma {:induction false} ExpandIdle(sessions: map<nat, Session>, nodes: seq<Node>, es: seq<Event>)
    requires forall i | 0 <= i < |nodes| ::
               NodeOutcome(sessions, nodes[i], es) == [Sentence(nodes[i].words, nodes[i].delim)]
    ensures Expand(sessions, nodes, es) == Contents(nodes)
  {
    if nodes != [] {
      forall i | 0 <= i < |nodes[1..]|
        ensures NodeOutcome(sessions, nodes[1..][i], es) == [Sentence(nodes[1..][i].words, nodes[1..][i].delim)]
      {
        assert nodes[1..][i] == nodes[i + 1];
      }
      ExpandIdle(sessions, nodes[1..], es);
      assert Contents(nodes) == [Sentence(nodes[0].words, nodes[0].delim)] + Contents(nodes[1..]);
    }
  }

  lemma {:induction false} IdleOutcome(session: Session, words: seq<string>, delim: char, own: seq<Event>)
    requires !Commits(own)
    ensures SentenceOutcome(session, words, delim, own) == [Sentence(words, delim)]
    decreases own
  {
    if own != [] {
      match own[0]
      case Write(_, _, _) => IdleOutcome(session, words, delim, own[1..]);
      case Update(_, index, content) =>
        var queued := 0 <= index <= |words| + session.virt;
        IdleOutcome(if queued then Record(session, index, content) else session, words, delim, own[1..]);
      case Disconnect(_) =>
    }
  }

  lemma OwnHead(es: seq<Event>, k: nat)
    requires es != []
    ensures Own(es, k) == (if es[0].sock == k then [es[0]] + Own(es[1..], k) else Own(es[1..], k))
    ensures es[0].sock == k ==> Own(es, k) != [] && Own(es, k)[0] == es[0] && Own(es, k)[1..] == Own(es[1..], k)
  {
  }

  // ---------- one step, seen from the document in slot `d` ----------

  /** A sentence of slot `d` can only be held by a session on slot `d`. */
  lemma HolderInSlot(s: Server, d: nat, i: nat, k: nat)
    requires Inv(s) && At(s.docs, d, i) && k in s.sessions && s.sessions[k].node == s.docs[d].nodes[i].id
    ensures s.sessions[k].doc == d && Live(s, k) && Position(s, k) == i
  {
    SessionsAreLive(s, k);
    assert At(s.docs, s.sessions[k].doc, Position(s, k));
  }

  /** An update changes nothing but the socket's own session. */
  lemma UpdateFrame(s: Server, e: Event)
    requires Inv(s) && e.Update? && e.sock in s.sessions
    ensures var s1, session := Step(s, e), s.sessions[e.sock];
            && Live(s, e.sock) && Live(s1, e.sock)
            && s1.docs == s.docs && s1.disk == s.disk
            && SlotOf(s1, e.sock) == SlotOf(s, e.sock) && Position(s1, e.sock) == Position(s, e.sock)
            && s1.sessions == s.sessions[e.sock :=
                 if 0 <= e.index <= |NodeOf(s, e.sock).words| + session.virt
                 then Record(session, e.index, e.content) else session]
  {
    SessionsAreLive(s, e.sock);
    var session := s.sessions[e.sock];
    assert s.sessions == s.sessions[e.sock := session];
    if 0 <= e.index <= session.origCount + session.virt {
      RecordOk(SlotOf(s, e.sock), session, e.index, e.content);
    }
  }

  /** Without WRITE no session starts; ETIRW and disconnect end the socket's session. */
  lemma OnlyOwnSessions(s: Server, e: Event, k: nat)
    requires Inv(s) && Guard(s, e) && !e.Write? && k in Step(s, e).sessions
    ensures k in s.sessions && (e.sock == k ==> e.Update?)
  {
    StepDocs(s, e);
  }

  /** The nodes of slot `d` after the event. */
  ghost function NodesAfter(s: Server, e: Event, d: nat): seq<Node>
    requires Inv(s) && d < |s.docs| && s.docs[d].Active?
  {
    if CommitsOn(s, e, d) then SessionsAreLive(s, e.sock); NewNodes(s, e.sock) else s.docs[d].nodes
  }

  ghost predicate CommitsOn(s: Server, e: Event, d: nat) {
    e.Etirw? && e.sock in s.sessions && s.sessions[e.sock].doc == d
  }

  /** What an event other than WRITE does to the tables. */
  lemma StepDocs(s: Server, e: Event)
    requires Inv(s) && Guard(s, e) && !e.Write?
    ensures var s1 := Step(s, e);
            && |s1.docs| == |s.docs|
            && (forall d | 0 <= d < |s.docs| && s1.docs[d].Active? ::
                  && s.docs[d].Active? && s1.docs[d].name == s.docs[d].name
                  && s1.docs[d].nodes == NodesAfter(s, e, d))
            && (forall k | k in s1.sessions ::
                  && k in s.sessions && s1.sessions[k].doc == s.sessions[k].doc
                  && s1.sessions[k].node == s.sessions[k].node)
            && (e.Etirw? || e.Disconnect? ==> s1.sessions == s.sessions - {e.sock})
  {
    if e.sock in s.sessions {
      SessionsAreLive(s, e.sock);
      match e
      case Update(_, _, _) => UpdateFrame(s, e);
      case Etirw(_) =>
        EtirwIs(s, e.sock);
        CloseDocs(Committed(s, e.sock), e.sock);
      case Disconnect(_) => CloseDocs(s, e.sock);
    } else {
      assert s.sessions - {e.sock} == s.sessions;
    }
  }

  /** A WRITE for another document leaves slot `d`, its sessions and all files alone. */
  lemma WriteStep(s: Server, e: Event, d: nat)
    requires Inv(s) && Guard(s, e) && e.Write? && d < |s.docs| && s.docs[d].Active? && e.name != s.docs[d].name
    ensures var s1 := Step(s, e);
            && |s1.docs| == |s.docs| && s1.docs[d] == s.docs[d] && s1.disk == s.disk
            && (forall k | k in s.sessions :: k in s1.sessions && s1.sessions[k] == s.sessions[k])
            && (forall k | k in s1.sessions && s1.sessions[k].doc == d :: k in s.sessions)
  {
    LoadFrame(s, e.name, d);
    WriteCases(s, e.sock, e.name, e.sentence);
  }

  /** A WRITE loads no document but the one it names. */
  lemma WriteHolds(s: Server, e: Event, f: string)
    requires e.Write? && e.name != f && forall i | 0 <= i < |s.docs| :: !Holds(s.docs[i], f)
    ensures var s1 := Step(s, e); s1.disk == s.disk && forall i | 0 <= i < |s1.docs| :: !Holds(s1.docs[i], f)
  {
  }

  /** The slot after any event that is not a WRITE for its document. */
  lemma StepSlot(s: Server, e: Event, d: nat)
    requires Inv(s) && Guard(s, e) && d < |s.docs| && s.docs[d].Active?
    requires e.Write? ==> e.name != s.docs[d].name
    ensures var s1 := Step(s, e);
            && |s1.docs| == |s.docs|
            && (s1.docs[d].Active? ==> s1.docs[d].name == s.docs[d].name && s1.docs[d].nodes == NodesAfter(s, e, d))
            && (forall k | k in s1.sessions && s1.sessions[k].doc == d ::
                  k in s.sessions && s.sessions[k].doc == d && s1.sessions[k].node == s.sessions[k].node)
  {
    if e.Write? {
      WriteStep(s, e, d);
    } else {
      StepDocs(s, e);
    }
  }

  /** The file of an undisturbed document changes exactly when an event commits to it. */
  lemma StepFile(s: Server, e: Event, f: string)
    requires Inv(s) && Undisturbing(s, e, f) && Writes(s, e, f)
    ensures var s1 := Step(s, e);
            if e.Etirw? && e.sock in s.sessions && Live(s, e.sock) && SlotOf(s, e.sock).name == f
            then FileOf(s1.disk, f) == Some(Flush(Contents(NewNodes(s, e.sock))))
            else FileOf(s1.disk, f) == FileOf(s.disk, f)
  {
    if e.Etirw? && e.sock in s.sessions {
      SessionsAreLive(s, e.sock);
      EtirwIs(s, e.sock);
      CountsAgreeIff(s, e.sock);
      SaveFileFrame(s.disk, SlotOf(s, e.sock).name, Flush(Contents(NewNodes(s, e.sock))));
      if SlotOf(s, e.sock).name == f {
        NothingBehind(s, e.sock);
      }
    }
  }

  /** A commit that cuts nothing off leaves some token or has nothing behind it. */
  lemma NothingBehind(s: Server, sock: nat)
    requires Live(s, sock) && !Cuts(s, sock) && AllCountable(EditTokens(s.sessions[sock].edits))
    ensures Acceptable(s, sock)
  {
    var nodes, p := SlotOf(s, sock).nodes, Position(s, sock);
    if p == |nodes| - 1 {
      assert nodes[p + 1..] == [];
    }
  }

  /** So does the file of the document in slot `d`. */
  lemma SlotFile(s: Server, e: Event, d: nat)
    requires Inv(s) && d < |s.docs| && s.docs[d].Active?
    requires Undisturbing(s, e, s.docs[d].name) && Writes(s, e, s.docs[d].name)
    ensures FileOf(Step(s, e).disk, s.docs[d].name)
         == if CommitsOn(s, e, d) then Some(Flush(Contents(NodesAfter(s, e, d)))) else FileOf(s.disk, s.docs[d].name)
  {
    StepFile(s, e, s.docs[d].name);
    if e.Etirw? && e.sock in s.sessions {
      SessionsAreLive(s, e.sock);
      assert s.sessions[e.sock].doc != d ==> SlotOf(s, e.sock).name != s.docs[d].name;
    }
  }

  /** Without a holder before the event, a node of slot `d` has none after it. */
  lemma StaysFree(s: Server, e: Event, d: nat, i: nat)
    requires Inv(s) && Guard(s, e) && At(s.docs, d, i) && (e.Write? ==> e.name != s.docs[d].name)
    requires forall k | k in s.sessions :: s.sessions[k].node != s.docs[d].nodes[i].id
    ensures forall k | k in Step(s, e).sessions :: Step(s, e).sessions[k].node != s.docs[d].nodes[i].id
  {
    var s1, node := Step(s, e), s.docs[d].nodes[i];
    if e.Write? {
      StepInv(s, e);
      WriteStep(s, e, d);
      forall k | k in s1.sessions
        ensures s1.sessions[k].node != node.id
      {
        assert At(s1.docs, d, i);
        if s1.sessions[k].node == node.id {
          HolderInSlot(s1, d, i, k);
        }
      }
    } else {
      StepDocs(s, e);
    }
  }

  /** A node whose holder does not commit now: its outcome is still to come. */
  lemma HeldNodeStep(s: Server, es: seq<Event>, d: nat, i: nat, j: nat)
    requires Inv(s) && es != [] && Guard(s, es[0]) && At(s.docs, d, i)
    requires es[0].Write? ==> es[0].name != s.docs[d].name
    requires j in s.sessions && s.sessions[j].node == s.docs[d].nodes[i].id && es[0] != Etirw(j)
    ensures NodeOutcome(Step(s, es[0]).sessions, s.docs[d].nodes[i], es[1..])
         == NodeOutcome(s.sessions, s.docs[d].nodes[i], es)
  {
    var e, s1, node := es[0], Step(s, es[0]), s.docs[d].nodes[i];
    StepInv(s, e);
    HolderOutcome(s.sessions, node, j, es);
    OwnHead(es, j);
    HolderInSlot(s, d, i, j);
    if e.Disconnect? && e.sock == j {
      StepDocs(s, e);
    } else {
      if e.sock != j {
        StepFrame(s, e, j);
      } else if e.Update? {
        UpdateFrame(s, e);
      } else {
        WriteStep(s, e, d);
      }
      HolderOutcome(s1.sessions, node, j, es[1..]);
    }
  }

  /** Any node that is not committed now. */
  lemma NodeStep(s: Server, es: seq<Event>, d: nat, i: nat)
    requires Inv(s) && es != [] && Guard(s, es[0]) && At(s.docs, d, i)
    requires es[0].Write? ==> es[0].name != s.docs[d].name
    requires es[0].Etirw? && es[0].sock in s.sessions ==> s.sessions[es[0].sock].node != s.docs[d].nodes[i].id
    ensures NodeOutcome(Step(s, es[0]).sessions, s.docs[d].nodes[i], es[1..])
         == NodeOutcome(s.sessions, s.docs[d].nodes[i], es)
  {
    if j :| j in s.sessions && s.sessions[j].node == s.docs[d].nodes[i].id {
      HeldNodeStep(s, es, d, i, j);
    } else {
      StaysFree(s, es[0], d, i);
    }
  }

  /** The node whose holder commits now becomes the session's new sentences. */
  lemma CommitNode(s: Server, es: seq<Event>, k: nat)
    requires Inv(s) && es != [] && es[0] == Etirw(k) && Live(s, k)
    ensures NodeOutcome(s.sessions, SlotOf(s, k).nodes[Position(s, k)], es) == NewSentences(s, k)
  {
    HolderOutcome(s.sessions, SlotOf(s, k).nodes[Position(s, k)], k, es);
    OwnHead(es, k);
  }

  lemma FreshOutcomes(s: Server, sessions: map<nat, Session>, d: Doc, es: seq<Event>)
    requires Inv(s) && forall k | k in sessions :: k in s.sessions && sessions[k].node == s.sessions[k].node
    ensures Expand(sessions, Fresh(d, s.nextId), es) == d
  {
    var run := Fresh(d, s.nextId);
    forall i | 0 <= i < |run|
      ensures NodeOutcome(sessions, run[i], es) == [Sentence(run[i].words, run[i].delim)]
    {
      forall k | k in sessions
        ensures sessions[k].node != run[i].id
      {
        SessionsAreLive(s, k);
      }
    }
    ExpandIdle(sessions, run, es);
    FreshContents(d, s.nextId);
  }

  lemma ExpandStepOther(s: Server, es: seq<Event>, d: nat)
    requires Inv(s) && es != [] && Guard(s, es[0]) && d < |s.docs| && s.docs[d].Active? && !CommitsOn(s, es[0], d)
    requires es[0].Write? ==> es[0].name != s.docs[d].name
    ensures Expand(s.sessions, s.docs[d].nodes, es) == Expand(Step(s, es[0]).sessions, s.docs[d].nodes, es[1..])
  {
    var nodes, s1 := s.docs[d].nodes, Step(s, es[0]);
    forall i | 0 <= i < |nodes|
      ensures NodeOutcome(s.sessions, nodes[i], es) == NodeOutcome(s1.sessions, nodes[i], es[1..])
    {
      assert At(s.docs, d, i);
      if es[0].sock in s.sessions && s.sessions[es[0].sock].node == nodes[i].id {
        HolderInSlot(s, d, i, es[0].sock);
      }
      NodeStep(s, es, d, i);
    }
    ExpandSame(s.sessions, s1.sessions, nodes, es, es[1..]);
  }

  lemma {:induction false} ExpandPart(s: Server, es: seq<Event>, k: nat, part: seq<Node>)
    requires Inv(s) && es != [] && es[0] == Etirw(k) && Live(s, k) && Guard(s, es[0]) && !Cuts(s, k)
    requires forall i | 0 <= i < |part| :: part[i] in SlotOf(s, k).nodes && part[i].id != s.sessions[k].node
    ensures Expand(s.sessions, part, es) == Expand(Step(s, es[0]).sessions, part, es[1..])
  {
    var nodes := SlotOf(s, k).nodes;
    forall i | 0 <= i < |part|
      ensures NodeOutcome(s.sessions, part[i], es) == NodeOutcome(Step(s, es[0]).sessions, part[i], es[1..])
    {
      var q :| 0 <= q < |nodes| && nodes[q] == part[i];
      assert At(s.docs, s.sessions[k].doc, q);
      NodeStep(s, es, s.sessions[k].doc, q);
    }
    ExpandSame(s.sessions, Step(s, es[0]).sessions, part, es, es[1..]);
  }

  /** Replacing one node: the outcomes on both sides agree part by part. */
  lemma ExpandReplace(m: map<nat, Session>, m': map<nat, Session>, nodes: seq<Node>, p: nat, run: seq<Node>,
                      es: seq<Event>, es': seq<Event>)
    requires p < |nodes| && (run != [] || p == |nodes| - 1)
    requires Expand(m, nodes[..p], es) == Expand(m', nodes[..p], es')
    requires NodeOutcome(m, nodes[p], es) == Expand(m', run, es')
    requires Expand(m, nodes[p + 1..], es) == Expand(m', nodes[p + 1..], es')
    ensures Expand(m, nodes, es) == Expand(m', Relink(nodes, p, run), es')
  {
    ExpandThree(m, nodes[..p], [nodes[p]], nodes[p + 1..], es);
    assert nodes == nodes[..p] + [nodes[p]] + nodes[p + 1..];
    ExpandOne(m, nodes[p], es);
    ExpandThree(m', nodes[..p], run, nodes[p + 1..], es');
  }

  lemma {:induction false} ExpandStepCommit(s: Server, es: seq<Event>, k: nat)
    requires Inv(s) && es != [] && es[0] == Etirw(k) && Live(s, k) && Guard(s, es[0]) && !Cuts(s, k)
    ensures Expand(s.sessions, SlotOf(s, k).nodes, es) == Expand(Step(s, es[0]).sessions, NewNodes(s, k), es[1..])
  {
    var nodes, p, s1 := SlotOf(s, k).nodes, Position(s, k), Step(s, es[0]);
    OwnHead(es, k);
    CommitStepFacts(s, es, k);
    DistinctIn(s.docs, s.nextId, s.sessions[k].doc);
    ExpandPart(s, es, k, nodes[..p]);
    ExpandPart(s, es, k, nodes[p + 1..]);
    CommitNode(s, es, k);
    FreshOutcomes(s, s1.sessions, NewSentences(s, k), es[1..]);
    ExpandReplace(s.sessions, s1.sessions, nodes, p, Fresh(NewSentences(s, k), s.nextId), es, es[1..]);
  }

  lemma CommitStepFacts(s: Server, es: seq<Event>, k: nat)
    requires Inv(s) && es != [] && es[0] == Etirw(k) && Live(s, k) && Guard(s, es[0]) && !Cuts(s, k)
    ensures var s1 := Step(s, es[0]);
            forall j | j in s1.sessions :: j in s.sessions && s1.sessions[j].node == s.sessions[j].node
    ensures NewSentences(s, k) != [] || Position(s, k) == |SlotOf(s, k).nodes| - 1
  {
    StepDocs(s, es[0]);
    NewSentencesFacts(s, k);
  }

  lemma ExpandThree(sessions: map<nat, Session>, a: seq<Node>, b: seq<Node>, c: seq<Node>, es: seq<Event>)
    ensures Expand(sessions, a + b + c, es)
         == Expand(sessions, a, es) + Expand(sessions, b, es) + Expand(sessions, c, es)
  {
    ExpandConcat(sessions, a + b, c, es);
    ExpandConcat(sessions, a, b, es);
  }

  lemma ExpandOne(sessions: map<nat, Session>, node: Node, es: seq<Event>)
    ensures Expand(sessions, [node], es) == NodeOutcome(sessions, node, es)
  {
    assert [node][1..] == [];
  }

  /** The expected document is the same before and after any event. */
  lemma ExpandStep(s: Server, es: seq<Event>, d: nat)
    requires Inv(s) && es != [] && d < |s.docs| && s.docs[d].Active? && Undisturbing(s, es[0], s.docs[d].name)
    ensures Expand(s.sessions, s.docs[d].nodes, es) == Expand(Step(s, es[0]).sessions, NodesAfter(s, es[0], d), es[1..])
  {
    if CommitsOn(s, es[0], d) {
      SessionsAreLive(s, es[0].sock);
      ExpandStepCommit(s, es, es[0].sock);
    } else {
      ExpandStepOther(s, es, d);
    }
  }

  // ---------- whole runs ----------

  /** Without a WRITE for it, a document is not loaded. */
  lemma StepGone(s: Server, e: Event, f: string)
    requires Inv(s) && Undisturbing(s, e, f) && forall i | 0 <= i < |s.docs| :: !Holds(s.docs[i], f)
    ensures forall i | 0 <= i < |Step(s, e).docs| :: !Holds(Step(s, e).docs[i], f)
  {
    var s1 := Step(s, e);
    if e.Write? {
      WriteHolds(s, e, f);
    } else {
      StepDocs(s, e);
      forall i | 0 <= i < |s1.docs|
        ensures !Holds(s1.docs[i], f)
      {
        assert s1.docs[i].Active? ==> s.docs[i].name == s1.docs[i].name && !Holds(s.docs[i], f);
      }
    }
  }

  /** A document given up stays so, and its file stays as it is. */
  lemma {:induction false} GoneDoc(s: Server, es: seq<Event>, f: string)
    requires Inv(s) && Undisturbed(s, es, f) && forall i | 0 <= i < |s.docs| :: !Holds(s.docs[i], f)
    ensures forall i | 0 <= i < |Run(s, es).docs| :: !Holds(Run(s, es).docs[i], f)
    ensures AllWrites(s, es, f) ==> FileOf(Run(s, es).disk, f) == FileOf(s.disk, f)
    decreases es
  {
    if es != [] {
      var s1 := Step(s, es[0]);
      StepInv(s, es[0]);
      StepGone(s, es[0], f);
      if Writes(s, es[0], f) {
        GoneFile(s, es[0], f);
      }
      GoneDoc(s1, es[1..], f);
    }
  }

  lemma GoneFile(s: Server, e: Event, f: string)
    requires Inv(s) && Undisturbing(s, e, f) && Writes(s, e, f) && forall i | 0 <= i < |s.docs| :: !Holds(s.docs[i], f)
    ensures FileOf(Step(s, e).disk, f) == FileOf(s.disk, f)
  {
    StepFile(s, e, f);
    if e.sock in s.sessions {
      SessionsAreLive(s, e.sock);
      assert !Holds(s.docs[s.sessions[e.sock].doc], f);
    }
  }

  /** Without a commit to come on slot `d`, its nodes stay as they are. */
  lemma NoCommitIdle(s: Server, sessions: map<nat, Session>, nodes: seq<Node>, d: nat, es: seq<Event>)
    requires forall i, k | 0 <= i < |nodes| && k in sessions && sessions[k].node == nodes[i].id :: sessions[k].doc == d
    requires !SomeCommit(sessions, d, es)
    ensures Expand(sessions, nodes, es) == Contents(nodes)
  {
    forall i | 0 <= i < |nodes|
      ensures NodeOutcome(sessions, nodes[i], es) == [Sentence(nodes[i].words, nodes[i].delim)]
    {
      forall k | k in sessions && sessions[k].node == nodes[i].id
        ensures SentenceOutcome(sessions[k], nodes[i].words, nodes[i].delim, Own(es, k))
             == [Sentence(nodes[i].words, nodes[i].delim)]
      {
        IdleOutcome(sessions[k], nodes[i].words, nodes[i].delim, Own(es, k));
      }
    }
    ExpandIdle(sessions, nodes, es);
  }

  /** Holders, after the event, of the nodes of slot `d` are sessions on slot `d`. */
  lemma HoldersAfter(s: Server, e: Event, d: nat)
    requires Inv(s) && Guard(s, e) && d < |s.docs| && s.docs[d].Active? && (e.Write? ==> e.name != s.docs[d].name)
    ensures var s1, nodes := Step(s, e), NodesAfter(s, e, d);
            forall i, k | 0 <= i < |nodes| && k in s1.sessions && s1.sessions[k].node == nodes[i].id ::
              s1.sessions[k].doc == d
  {
    var s1, nodes := Step(s, e), NodesAfter(s, e, d);
    if e.Write? {
      StepInv(s, e);
      WriteStep(s, e, d);
      forall i, k | 0 <= i < |nodes| && k in s1.sessions && s1.sessions[k].node == nodes[i].id
        ensures s1.sessions[k].doc == d
      {
        assert At(s1.docs, d, i);
        HolderInSlot(s1, d, i, k);
      }
    } else {
      StepDocs(s, e);
      forall i, k | 0 <= i < |nodes| && k in s1.sessions && s1.sessions[k].node == nodes[i].id
        ensures s1.sessions[k].doc == d
      {
        HolderAfter(s, e, d, i, k);
      }
    }
  }

  lemma HolderAfter(s: Server, e: Event, d: nat, i: nat, k: nat)
    requires Inv(s) && d < |s.docs| && s.docs[d].Active? && i < |NodesAfter(s, e, d)|
    requires k in s.sessions && s.sessions[k].node == NodesAfter(s, e, d)[i].id
    ensures s.sessions[k].doc == d
  {
    SessionsAreLive(s, k);
    if q :| At(s.docs, d, q) && s.docs[d].nodes[q].id == NodesAfter(s, e, d)[i].id {
      HolderInSlot(s, d, q, k);
    } else {
      AfterIds(s, e, d, i);
    }
  }

  lemma AfterIds(s: Server, e: Event, d: nat, i: nat)
    requires Inv(s) && d < |s.docs| && s.docs[d].Active? && i < |NodesAfter(s, e, d)|
    ensures var id := NodesAfter(s, e, d)[i].id;
            id >= s.nextId || exists q :: At(s.docs, d, q) && s.docs[d].nodes[q].id == id
  {
    if CommitsOn(s, e, d) {
      SessionsAreLive(s, e.sock);
      DistinctIn(s.docs, s.nextId, d);
      RelinkIds(s.docs[d].nodes, Position(s, e.sock), NewSentences(s, e.sock), s.nextId);
      if q :| 0 <= q < |s.docs[d].nodes| && s.docs[d].nodes[q].id == NodesAfter(s, e, d)[i].id {
        assert At(s.docs, d, q);
      }
    } else {
      assert At(s.docs, d, i);
    }
  }

  lemma CommitsStep(s: Server, es: seq<Event>, d: nat, k: nat)
    requires Inv(s) && es != [] && d < |s.docs| && s.docs[d].Active? && Undisturbing(s, es[0], s.docs[d].name)
    requires k in s.sessions && s.sessions[k].doc == d
    ensures var s1 := Step(s, es[0]);
            Commits(Own(es, k))
            <==> es[0] == Etirw(k) || (k in s1.sessions && s1.sessions[k].doc == d && Commits(Own(es[1..], k)))
  {
    var e := es[0];
    OwnHead(es, k);
    if e.Write? {
      WriteStep(s, e, d);
    } else if e.sock != k {
      StepFrame(s, e, k);
    } else if e.Update? {
      UpdateFrame(s, e);
    } else {
      StepDocs(s, e);
    }
  }

  lemma SomeCommitStep(s: Server, es: seq<Event>, d: nat)
    requires Inv(s) && es != [] && d < |s.docs| && s.docs[d].Active? && Undisturbing(s, es[0], s.docs[d].name)
    ensures SomeCommit(s.sessions, d, es)
       <==> CommitsOn(s, es[0], d) || SomeCommit(Step(s, es[0]).sessions, d, es[1..])
  {
    var e, s1 := es[0], Step(s, es[0]);
    StepSlot(s, e, d);
    forall k | k in s.sessions && s.sessions[k].doc == d
      ensures Commits(Own(es, k))
         <==> e == Etirw(k) || (k in s1.sessions && s1.sessions[k].doc == d && Commits(Own(es[1..], k)))
    {
      CommitsStep(s, es, d, k);
    }
  }

  // ---------- whether the document stays in memory ----------

  /** The session's messages end it. */
  ghost predicate Ends(own: seq<Event>) {
    own != [] && (own[0].Etirw? || own[0].Disconnect? || Ends(own[1..]))
  }

  /** Nobody has the document open (it was loaded for a refused WRITE), or somebody will still have. */
  ghost predicate Stays(sessions: map<nat, Session>, d: nat, es: seq<Event>) {
    || (forall k | k in sessions :: sessions[k].doc != d)
    || (exists k :: k in sessions && sessions[k].doc == d && !Ends(Own(es, k)))
  }

  /** The slot is freed exactly by the end of its last session. */
  lemma SlotFreedIff(s: Server, e: Event, d: nat)
    requires Inv(s) && Guard(s, e) && d < |s.docs| && s.docs[d].Active?
    requires e.Write? ==> e.name != s.docs[d].name
    ensures |Step(s, e).docs| == |s.docs|
    ensures Step(s, e).docs[d].Empty?
       <==> (e.Etirw? || e.Disconnect?) && e.sock in s.sessions && s.sessions[e.sock].doc == d && !Shared(s, e.sock)
  {
    match e
    case Write(_, _, _) => WriteStep(s, e, d);
    case Update(_, _, _) =>
    case Etirw(sock) =>
      if sock in s.sessions {
        SessionsAreLive(s, sock);
        EtirwIs(s, sock);
        CommittedInv(s, sock);
        CloseDocs(Committed(s, sock), sock);
        FreedIff(Committed(s, sock), sock);
        assert Shared(Committed(s, sock), sock) <==> Shared(s, sock);
      }
    case Disconnect(sock) =>
      if sock in s.sessions {
        SessionsAreLive(s, sock);
        CloseDocs(s, sock);
        FreedIff(s, sock);
      }
  }

  /** A session of the document that goes on after the event. */
  lemma EndsStep(s: Server, es: seq<Event>, d: nat, k: nat)
    requires Inv(s) && es != [] && d < |s.docs| && s.docs[d].Active? && Undisturbing(s, es[0], s.docs[d].name)
    requires k in s.sessions && s.sessions[k].doc == d
    ensures var e, s1 := es[0], Step(s, es[0]);
            if (e.Etirw? || e.Disconnect?) && e.sock == k then Ends(Own(es, k)) && k !in s1.sessions
            else k in s1.sessions && s1.sessions[k].doc == d && (Ends(Own(es, k)) <==> Ends(Own(es[1..], k)))
  {
    var e := es[0];
    OwnHead(es, k);
    if e.Write? {
      WriteStep(s, e, d);
    } else if e.sock != k {
      StepFrame(s, e, k);
      StepDocs(s, e);
    } else if e.Update? {
      UpdateFrame(s, e);
    } else {
      StepDocs(s, e);
    }
  }

  lemma StaysStep(s: Server, es: seq<Event>, d: nat)
    requires Inv(s) && es != [] && d < |s.docs| && s.docs[d].Active? && Undisturbing(s, es[0], s.docs[d].name)
    ensures var s1 := Step(s, es[0]);
            && |s1.docs| == |s.docs|
            && (Stays(s.sessions, d, es) <==> s1.docs[d].Active? && Stays(s1.sessions, d, es[1..]))
  {
    var e, s1 := es[0], Step(s, es[0]);
    StepSlot(s, e, d);
    SlotFreedIff(s, e, d);
    forall k | k in s.sessions && s.sessions[k].doc == d
      ensures if (e.Etirw? || e.Disconnect?) && e.sock == k then Ends(Own(es, k)) && k !in s1.sessions
              else k in s1.sessions && s1.sessions[k].doc == d && (Ends(Own(es, k)) <==> Ends(Own(es[1..], k)))
    {
      EndsStep(s, es, d, k);
    }
  }

  // ---------- the outcome of a run ----------

  /** Every interleaving of the sessions' messages, with anything going on in other documents, ends in
      the same document: the original with each locked sentence replaced in place by what its session
      alone makes of it, whatever was queued. It is given up exactly when all its sessions end. If the
      commits are accepted and there was one, the file is exactly that document's text. */
  lemma {:induction false} RunOutcome(s: Server, es: seq<Event>, d: nat)
    requires Inv(s) && d < |s.docs| && s.docs[d].Active? && Undisturbed(s, es, s.docs[d].name)
    ensures var s1, f := Run(s, es), s.docs[d].name;
            var final := Expand(s.sessions, s.docs[d].nodes, es);
            && |s1.docs| == |s.docs|
            && (Holds(s1.docs[d], f) <==> Stays(s.sessions, d, es))
            && (forall i | 0 <= i < |s1.docs| && Holds(s1.docs[i], f) :: i == d && Contents(s1.docs[i].nodes) == final)
            && (AllWrites(s, es, f) ==>
                  FileOf(s1.disk, f) == if SomeCommit(s.sessions, d, es) then Some(Flush(final)) else FileOf(s.disk, f))
    decreases es
  {
    var f := s.docs[d].name;
    if es == [] {
      EmptyRun(s, d);
    } else {
      var s1 := Step(s, es[0]);
      StepInv(s, es[0]);
      StepSlot(s, es[0], d);
      ExpandStep(s, es, d);
      SomeCommitStep(s, es, d);
      StaysStep(s, es, d);
      if Writes(s, es[0], f) {
        SlotFile(s, es[0], d);
      }
      if !SomeCommit(s1.sessions, d, es[1..]) {
        HoldersAfter(s, es[0], d);
        NoCommitIdle(s1, s1.sessions, NodesAfter(s, es[0], d), d, es[1..]);
      }
      if s1.docs[d].Active? {
        RunOutcome(s1, es[1..], d);
      } else {
        GoneAfter(s, es, d);
      }
    }
  }

  lemma EmptyRun(s: Server, d: nat)
    requires Inv(s) && d < |s.docs| && s.docs[d].Active?
    ensures Expand(s.sessions, s.docs[d].nodes, []) == Contents(s.docs[d].nodes)
    ensures !SomeCommit(s.sessions, d, []) && Stays(s.sessions, d, [])
    ensures forall i | 0 <= i < |s.docs| && Holds(s.docs[i], s.docs[d].name) :: i == d
  {
    forall i, k | 0 <= i < |s.docs[d].nodes| && k in s.sessions && s.sessions[k].node == s.docs[d].nodes[i].id
      ensures s.sessions[k].doc == d
    {
      assert At(s.docs, d, i);
      HolderInSlot(s, d, i, k);
    }
    NoCommitIdle(s, s.sessions, s.docs[d].nodes, d, []);
    forall i | 0 <= i < |s.docs| && Holds(s.docs[i], s.docs[d].name)
      ensures i == d
    {
      assert s.docs[i].name == s.docs[d].name;
    }
    if k :| k in s.sessions && s.sessions[k].doc == d {
      assert !Ends(Own([], k));
    }
  }

  lemma GoneAfter(s: Server, es: seq<Event>, d: nat)
    requires Inv(s) && es != [] && d < |s.docs| && s.docs[d].Active? && Undisturbed(s, es, s.docs[d].name)
    requires |Step(s, es[0]).docs| == |s.docs| && Step(s, es[0]).docs[d].Empty?
    ensures var s1, f := Step(s, es[0]), s.docs[d].name;
            && !SomeCommit(s1.sessions, d, es[1..])
            && |Run(s, es).docs| == |s.docs|
            && (forall i | 0 <= i < |Run(s, es).docs| :: !Holds(Run(s, es).docs[i], f))
            && (AllWrites(s1, es[1..], f) ==> FileOf(Run(s, es).disk, f) == FileOf(s1.disk, f))
  {
    var s1, f := Step(s, es[0]), s.docs[d].name;
    StepInv(s, es[0]);
    SlotFreedIff(s, es[0], d);
    StepDocs(s, es[0]);
    forall i | 0 <= i < |s1.docs|
      ensures !Holds(s1.docs[i], f)
    {
      assert i != d && s.docs[i].Active? ==> s.docs[i].name != s.docs[d].name;
    }
    forall k | k in s1.sessions
      ensures s1.sessions[k].doc != d
    {
      SessionsAreLive(s1, k);
    }
    GoneDoc(s1, es[1..], f);
    RunSize(s, es);
  }

  lemma {:induction false} RunSize(s: Server, es: seq<Event>)
    ensures |Run(s, es).docs| == |s.docs|
    decreases es
  {
    if es != [] {
      RunSize(Step(s, es[0]), es[1..]);
    }
  }

  /** Two runs in which the document's sessions send the same messages, however interleaved and whatever
      happens in other documents: one still holds the document exactly when the other does, they hold
      the same text, and they leave the same file if the commits are accepted. */
  lemma InterleavingsAgree(s: Server, es: seq<Event>, es': seq<Event>, d: nat)
    requires Inv(s) && d < |s.docs| && s.docs[d].Active?
    requires Undisturbed(s, es, s.docs[d].name) && Undisturbed(s, es', s.docs[d].name)
    requires forall k | k in s.sessions && s.sessions[k].doc == d :: Own(es, k) == Own(es', k)
    ensures var s1, s2, f := Run(s, es), Run(s, es'), s.docs[d].name;
            && |s1.docs| == |s2.docs| == |s.docs|
            && (forall i | 0 <= i < |s.docs| :: Holds(s1.docs[i], f) <==> Holds(s2.docs[i], f))
            && (forall i | 0 <= i < |s.docs| && Holds(s1.docs[i], f) ::
                  Contents(s1.docs[i].nodes) == Contents(s2.docs[i].nodes))
            && (AllWrites(s, es, f) && AllWrites(s, es', f) ==> FileOf(s1.disk, f) == FileOf(s2.disk, f))
  {
    RunOutcome(s, es, d);
    RunOutcome(s, es', d);
    SameOutcome(s, es, es', d);
  }

  lemma SameOutcome(s: Server, es: seq<Event>, es': seq<Event>, d: nat)
    requires Inv(s) && d < |s.docs| && s.docs[d].Active?
    requires forall k | k in s.sessions && s.sessions[k].doc == d :: Own(es, k) == Own(es', k)
    ensures Expand(s.sessions, s.docs[d].nodes, es) == Expand(s.sessions, s.docs[d].nodes, es')
    ensures SomeCommit(s.sessions, d, es) <==> SomeCommit(s.sessions, d, es')
    ensures Stays(s.sessions, d, es) <==> Stays(s.sessions, d, es')
  {
    var nodes := s.docs[d].nodes;
    forall i | 0 <= i < |nodes|
      ensures NodeOutcome(s.sessions, nodes[i], es) == NodeOutcome(s.sessions, nodes[i], es')
    {
      assert At(s.docs, d, i);
      if k :| k in s.sessions && s.sessions[k].node == nodes[i].id {
        HolderInSlot(s, d, i, k);
        HolderOutcome(s.sessions, nodes[i], k, es);
        HolderOutcome(s.sessions, nodes[i], k, es');
      }
    }
    ExpandSame(s.sessions, s.sessions, nodes, es, es');
  }

  // ---------- a condition on each session alone ----------

  /** The session's commit has some token to write or is on the last sentence, and it is countable. */
  ghost predicate SafeOwn(session: Session, words: seq<string>, last: bool, own: seq<Event>)
    decreases own
  {
    own == [] ||
    match own[0]
    case Write(_, _, _) => false
    case Update(_, index, content) =>
      var queued := 0 <= index <= |words| + session.virt;
      SafeOwn(if queued then Record(session, index, content) else session, words, last, own[1..])
    case Etirw(_) =>
      (words != [] || EditTokens(session.edits) != [] || last) && AllCountable(EditTokens(session.edits))
    case Disconnect(_) => true
  }

  ghost predicate IsLast(s: Server, k: nat)
    requires Live(s, k)
  {
    Position(s, k) == |SlotOf(s, k).nodes| - 1
  }

  ghost predicate SafeFor(s: Server, k: nat, own: seq<Event>) {
    Live(s, k) && SafeOwn(s.sessions[k], NodeOf(s, k).words, IsLast(s, k), own)
  }

  /** Every session's own messages are safe, whatever the others send in between. */
  ghost predicate SafeRun(s: Server, es: seq<Event>) {
    && (forall e | e in es :: !e.Write?)
    && forall k {:trigger Live(s, k)} | k in s.sessions :: SafeFor(s, k, Own(es, k))
  }

  /** No open document has the file for its backup. */
  ghost predicate NoBackupOf(s: Server, f: string) {
    forall i | 0 <= i < |s.docs| && s.docs[i].Active? :: BackupName(s.docs[i].name) != f
  }

  lemma {:induction false} SafeOwnLast(session: Session, words: seq<string>, own: seq<Event>, last: bool)
    requires SafeOwn(session, words, last, own)
    ensures SafeOwn(session, words, true, own)
    decreases own
  {
    if own != [] && own[0].Update? {
      var queued := 0 <= own[0].index <= |words| + session.virt;
      SafeOwnLast(if queued then Record(session, own[0].index, own[0].content) else session, words, own[1..], last);
    }
  }

  /** The guards of a safe run hold, one event at a time. */
  lemma SafeGuard(s: Server, es: seq<Event>, f: string)
    requires Inv(s) && SafeRun(s, es) && es != [] && NoBackupOf(s, f)
    ensures Undisturbing(s, es[0], f) && Writes(s, es[0], f)
  {
    var k := es[0].sock;
    assert es[0] in es;
    if k in s.sessions {
      SessionsAreLive(s, k);
      assert SafeFor(s, k, Own(es, k));
      OwnHead(es, k);
    }
  }

  /** Relinking some other sentence leaves the last one where it is. */
  lemma LastKept(nodes: seq<Node>, p: nat, d: Doc, base: nat)
    requires p < |nodes| - 1 && d != []
    ensures var nodes' := Relink(nodes, p, Fresh(d, base)); nodes' != [] && nodes'[|nodes'| - 1] == nodes[|nodes| - 1]
  {
  }

  lemma LastFound(nodes: seq<Node>)
    requires nodes != [] && forall i, j | 0 <= i < j < |nodes| :: nodes[i].id != nodes[j].id
    ensures FindNode(nodes, nodes[|nodes| - 1].id) == |nodes| - 1
  {
  }

  /** The last sentence stays the last while another session commits. */
  lemma CommitKeepsLast(s: Server, sock: nat, k: nat)
    requires Inv(s) && Live(s, sock) && !Cuts(s, sock) && Live(s, k) && k != sock
    requires s.sessions[k].doc == s.sessions[sock].doc && IsLast(s, k)
    ensures var nodes' := NewNodes(s, sock);
            nodes' != [] && nodes'[|nodes'| - 1] == NodeOf(s, k)
  {
    assert s.sessions[sock].node != s.sessions[k].node;
    NewSentencesFacts(s, sock);
    LastKept(SlotOf(s, sock).nodes, Position(s, sock), NewSentences(s, sock), s.nextId);
  }

  lemma LastStays(s: Server, e: Event, k: nat)
    requires Inv(s) && Guard(s, e) && !e.Write? && k in s.sessions && e.sock != k
    requires e.Etirw? && Live(s, e.sock) ==> !Cuts(s, e.sock)
    requires Live(s, k) && IsLast(s, k)
    ensures SameHold(s, Step(s, e), k) && IsLast(Step(s, e), k)
  {
    var s1, d := Step(s, e), s.sessions[k].doc;
    StepFrame(s, e, k);
    StepDocs(s, e);
    StepInv(s, e);
    DistinctIn(s1.docs, s1.nextId, d);
    if CommitsOn(s, e, d) {
      SessionsAreLive(s, e.sock);
      CommitKeepsLast(s, e.sock, k);
    }
    LastFound(s1.docs[d].nodes);
  }

  lemma SafeStepFor(s: Server, es: seq<Event>, k: nat)
    requires Inv(s) && SafeRun(s, es) && es != [] && Guard(s, es[0]) && Inv(Step(s, es[0]))
    requires es[0].Etirw? && Live(s, es[0].sock) ==> !Cuts(s, es[0].sock)
    requires k in Step(s, es[0]).sessions
    ensures SafeFor(Step(s, es[0]), k, Own(es[1..], k))
  {
    var e, s1 := es[0], Step(s, es[0]);
    assert e in es;
    OwnHead(es, k);
    SessionsAreLive(s1, k);
    OnlyOwnSessions(s, e, k);
    SessionsAreLive(s, k);
    assert SafeFor(s, k, Own(es, k));
    if e.sock == k {
      UpdateFrame(s, e);
    } else if IsLast(s, k) {
      LastStays(s, e, k);
    } else {
      StepFrame(s, e, k);
      if IsLast(s1, k) {
        SafeOwnLast(s.sessions[k], NodeOf(s, k).words, Own(es, k), false);
      }
    }
  }

  lemma SafeStep(s: Server, es: seq<Event>, f: string)
    requires Inv(s) && SafeRun(s, es) && es != [] && NoBackupOf(s, f)
    ensures Undisturbing(s, es[0], f) && Writes(s, es[0], f)
    ensures var s1 := Step(s, es[0]); Inv(s1) && SafeRun(s1, es[1..]) && NoBackupOf(s1, f)
  {
    var e, s1 := es[0], Step(s, es[0]);
    SafeGuard(s, es, f);
    StepInv(s, e);
    assert e in es;
    StepDocs(s, e);
    SafeNoCut(s, es);
    forall k | k in s1.sessions
      ensures SafeFor(s1, k, Own(es[1..], k))
    {
      SafeStepFor(s, es, k);
    }
  }

  lemma SafeNoCut(s: Server, es: seq<Event>)
    requires Inv(s) && SafeRun(s, es) && es != []
    ensures es[0].Etirw? && Live(s, es[0].sock) ==> !Cuts(s, es[0].sock)
  {
    var k := es[0].sock;
    if es[0].Etirw? && Live(s, k) {
      assert SafeFor(s, k, Own(es, k));
      OwnHead(es, k);
    }
  }

  /** Messages that are safe for each session alone meet all conditions in every interleaving. */
  lemma {:induction false} SafeRunIsUndisturbed(s: Server, es: seq<Event>, f: string)
    requires Inv(s) && SafeRun(s, es) && NoBackupOf(s, f)
    ensures Undisturbed(s, es, f) && AllWrites(s, es, f)
    decreases es
  {
    if es != [] {
      SafeStep(s, es, f);
      SafeRunIsUndisturbed(Step(s, es[0]), es[1..], f);
    }
  }

  /** So when every session's own messages are safe, all interleavings of them agree on every document
      that is open, in memory and on disk. */
  lemma SafeInterleavingsAgree(s: Server, es: seq<Event>, es': seq<Event>, d: nat)
    requires Inv(s) && SafeRun(s, es) && (forall e | e in es' :: !e.Write?)
    requires forall k | k in s.sessions :: Own(es, k) == Own(es', k)
    requires d < |s.docs| && s.docs[d].Active? && NoBackupOf(s, s.docs[d].name)
    ensures var s1, s2, f := Run(s, es), Run(s, es'), s.docs[d].name;
            && FileOf(s1.disk, f) == FileOf(s2.disk, f) && |s1.docs| == |s2.docs|
            && (forall i | 0 <= i < |s1.docs| :: Holds(s1.docs[i], f) <==> Holds(s2.docs[i], f))
            && (forall i | 0 <= i < |s1.docs| && Holds(s1.docs[i], f) ::
                  Contents(s1.docs[i].nodes) == Contents(s2.docs[i].nodes))
  {
    forall k | k in s.sessions
      ensures SafeFor(s, k, Own(es', k))
    {
      SessionsAreLive(s, k);
      assert SafeFor(s, k, Own(es, k));
    }
    SafeRunIsUndisturbed(s, es, s.docs[d].name);
    SafeRunIsUndisturbed(s, es', s.docs[d].name);
    InterleavingsAgree(s, es, es', d);
  }

  // ---------- why WRITE is kept out ----------

  /** A commit moves the sentences an index names: index `i` names the same sentence before and after
      exactly when it lies before the committed one, or behind it and the run is one sentence long. */
  lemma CommitMovesIndexIff(s: Server, k: nat, i: nat)
    requires Inv(s) && k in s.sessions
    ensures Live(s, k)
    ensures i < |SlotOf(s, k).nodes| && i < |NewNodes(s, k)| ==>
              (NewNodes(s, k)[i] == SlotOf(s, k).nodes[i]
               <==> i < Position(s, k) || (i > Position(s, k) && |NewSentences(s, k)| == 1))
  {
    SessionsAreLive(s, k);
    DistinctIn(s.docs, s.nextId, s.sessions[k].doc);
    var nodes, nodes', p := SlotOf(s, k).nodes, NewNodes(s, k), Position(s, k);
    if i < |nodes| && i < |nodes'| {
      RelinkAt(nodes, p, NewSentences(s, k), s.nextId, i);
    }
  }

  lemma RelinkAt(nodes: seq<Node>, p: nat, d: Doc, base: nat, i: nat)
    requires p < |nodes| && i < |Relink(nodes, p, Fresh(d, base))|
    ensures var node := Relink(nodes, p, Fresh(d, base))[i];
            && (i < p ==> node == nodes[i])
            && (p <= i < p + |d| ==> node.id == base + (i - p))
            && (p + |d| <= i ==> d != [] && i + 1 - |d| < |nodes| && node == nodes[i + 1 - |d|])
  {
  }
}
