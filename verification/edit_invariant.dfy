/** What every step of the edit engine keeps in memory: documents, sessions and locks. */
module EditInvariant {
  import opened Text
  import opened Document
  import opened Rebuild
  import opened EditEngine

  // ---------- the invariant ----------

  ghost predicate NamesDistinct(docs: seq<Slot>) {
    forall i, j {:trigger docs[i].name, docs[j].name}
      | 0 <= i < j < |docs| && docs[i].Active? && docs[j].Active? :: docs[i].name != docs[j].name
  }

  /** Position `p` of the active document in slot `i`. */
  ghost predicate At(docs: seq<Slot>, i: int, p: int) {
    0 <= i < |docs| && docs[i].Active? && 0 <= p < |docs[i].nodes|
  }

  ghost predicate IdsDistinct(docs: seq<Slot>, nextId: nat) {
    && (forall i, p {:trigger At(docs, i, p)} | At(docs, i, p) :: docs[i].nodes[p].id < nextId)
    && (forall i, p, j, q {:trigger At(docs, i, p), At(docs, j, q)}
          | At(docs, i, p) && At(docs, j, q) && docs[i].nodes[p].id == docs[j].nodes[q].id ::
          i == j && p == q)
  }

  /** The session's sentence is in the slot, unchanged since the lock, and its edits were accepted. */
  ghost predicate SessionOk(slot: Slot, session: Session) {
    && slot.Active?
    && var p := FindNode(slot.nodes, session.node);
       && p != -1
       && session.origCount == |slot.nodes[p].words|
       && Accepted(session.origCount, session.edits)
       && session.virt == Virtual(session.edits)
  }

  ghost predicate InDoc(docs: seq<Slot>, session: Session) {
    session.doc < |docs| && docs[session.doc].Active?
  }

  /** `closing` holds the sockets whose session is about to end, its sentence already replaced. */
  ghost predicate SessionsOk(docs: seq<Slot>, sessions: map<nat, Session>, closing: set<nat>) {
    forall k {:trigger InDoc(docs, sessions[k])} {:trigger SessionOk(docs[sessions[k].doc], sessions[k])}
      | k in sessions ::
      InDoc(docs, sessions[k]) && (k in closing || SessionOk(docs[sessions[k].doc], sessions[k]))
  }

  /** Mutual exclusion: no sentence is held twice. */
  ghost predicate Exclusive(sessions: map<nat, Session>) {
    forall k, l {:trigger sessions[k], sessions[l]}
      | k in sessions && l in sessions && k != l :: sessions[k].node != sessions[l].node
  }

  ghost function DocName(docs: seq<Slot>, d: int): string {
    if 0 <= d < |docs| && docs[d].Active? then docs[d].name else ""
  }

  /** The lock each session should hold. */
  ghost function Held(docs: seq<Slot>, sessions: map<nat, Session>): map<nat, Lock> {
    map k | k in sessions :: Lock(DocName(docs, sessions[k].doc), sessions[k].node, k)
  }

  ghost predicate HasLock(locks: seq<Lock>, lock: Lock) {
    lock.Lock? && lock in locks
  }

  /** The lock table holds exactly the locks of `held`, each once. */
  ghost predicate LocksMatch(locks: seq<Lock>, held: map<nat, Lock>) {
    && (forall i | 0 <= i < |locks| && locks[i].Lock? :: locks[i].sock in held && held[locks[i].sock] == locks[i])
    && (forall i, j | 0 <= i < j < |locks| && locks[i].Lock? && locks[j].Lock? :: locks[i].sock != locks[j].sock)
    && (forall k {:trigger HasLock(locks, held[k])} | k in held :: HasLock(locks, held[k]))
  }

  /** The sockets editing the document in slot `d`. */
  ghost function Editing(sessions: map<nat, Session>, d: int): set<nat> {
    set k | k in sessions && sessions[k].doc == d
  }

  ghost predicate UsersCounted(docs: seq<Slot>, sessions: map<nat, Session>) {
    forall d {:trigger Editing(sessions, d)} | 0 <= d < |docs| && docs[d].Active? ::
      docs[d].users == |Editing(sessions, d)|
  }

  ghost predicate SlotShaped(slot: Slot) {
    slot.Active? ==> Shaped(Contents(slot.nodes))
  }

  ghost predicate DocsShaped(docs: seq<Slot>) {
    forall d {:trigger SlotShaped(docs[d])} | 0 <= d < |docs| :: SlotShaped(docs[d])
  }

  ghost predicate DocsOk(docs: seq<Slot>, nextId: nat) {
    NamesDistinct(docs) && IdsDistinct(docs, nextId) && DocsShaped(docs)
  }

  ghost predicate InvClosing(s: Server, closing: set<nat>) {
    && DocsOk(s.docs, s.nextId)
    && SessionsOk(s.docs, s.sessions, closing)
    && Exclusive(s.sessions)
    && LocksMatch(s.locks, Held(s.docs, s.sessions))
    && UsersCounted(s.docs, s.sessions)
  }

  ghost predicate Inv(s: Server) {
    InvClosing(s, {})
  }

  // ---------- a session and its sentence ----------

  /** The session of `sock` is on a sentence of an active document. */
  ghost predicate Live(s: Server, sock: nat) {
    && sock in s.sessions && InDoc(s.docs, s.sessions[sock])
    && SessionOk(s.docs[s.sessions[sock].doc], s.sessions[sock])
  }

  ghost function SlotOf(s: Server, sock: nat): (slot: Slot)
    requires Live(s, sock)
    ensures slot.Active?
  {
    s.docs[s.sessions[sock].doc]
  }

  /** The position of the locked sentence in its document. */
  ghost function Position(s: Server, sock: nat): (p: nat)
    requires Live(s, sock)
    ensures p < |SlotOf(s, sock).nodes|
  {
    FindNode(SlotOf(s, sock).nodes, s.sessions[sock].node)
  }

  /** The locked sentence itself. */
  ghost function NodeOf(s: Server, sock: nat): Node
    requires Live(s, sock)
  {
    SlotOf(s, sock).nodes[Position(s, sock)]
  }

  lemma SessionsAreLive(s: Server, sock: nat)
    requires Inv(s) && sock in s.sessions
    ensures Live(s, sock)
    ensures At(s.docs, s.sessions[sock].doc, Position(s, sock))
    ensures Shaped(Contents(SlotOf(s, sock).nodes))
  {
    assert InDoc(s.docs, s.sessions[sock]);
    assert SlotShaped(s.docs[s.sessions[sock].doc]);
  }

  // ---------- what the handlers assume ----------

  /** The WRITE finds a free sentence. */
  ghost predicate Grants(s: Server, name: string, sentence: int) {
    var (s1, d) := FindOrLoad(s, name);
    var i := if sentence < 0 then 0 else sentence;
    d != -1 && i < |s1.docs[d].nodes| && FindLock(s1.locks, name, s1.docs[d].nodes[i].id, 0) == -1
  }

  /** A commit without a token, and sentences behind it to cut off. */
  ghost predicate Cuts(s: Server, sock: nat)
    requires Live(s, sock)
  {
    && NodeOf(s, sock).words == [] && EditTokens(s.sessions[sock].edits) == []
    && Position(s, sock) < |SlotOf(s, sock).nodes| - 1
  }

  /** Another session holds a sentence behind. */
  ghost predicate HeldBehind(s: Server, sock: nat)
    requires Live(s, sock)
  {
    exists k | k in s.sessions && s.sessions[k].doc == s.sessions[sock].doc ::
      FindNode(SlotOf(s, sock).nodes, s.sessions[k].node) > Position(s, sock)
  }

  /** A granted WRITE comes from a connection without a session and finds a lock slot; a commit cuts off
      no sentence that is held. */
  ghost predicate Guard(s: Server, e: Event) {
    match e
    case Write(sock, name, sentence) =>
      Grants(s, name, sentence) ==> sock !in s.sessions && FindFreeLock(s.locks, 0) != -1
    case Etirw(sock) => Live(s, sock) && Cuts(s, sock) ==> !HeldBehind(s, sock)
    case _ => true
  }

  ghost predicate Guarded(s: Server, es: seq<Event>)
    decreases es
  {
    es == [] || (Guard(s, es[0]) && Guarded(Step(s, es[0]), es[1..]))
  }

  // ---------- one slot of the document table changes ----------

  /** The ids of a node list are distinct, and each is an id of `prior` or new. */
  ghost predicate IdsFrom(nodes: seq<Node>, prior: seq<Node>, nextId: nat, nextId': nat) {
    && (forall p, q | 0 <= p < q < |nodes| :: nodes[p].id != nodes[q].id)
    && (forall p | 0 <= p < |nodes| ::
          nextId <= nodes[p].id < nextId' || exists q :: 0 <= q < |prior| && prior[q].id == nodes[p].id)
  }

  lemma IdsUpdate(docs: seq<Slot>, d: nat, slot: Slot, nextId: nat, nextId': nat)
    requires IdsDistinct(docs, nextId) && d < |docs| && nextId <= nextId'
    requires slot.Active? ==> IdsFrom(slot.nodes, if docs[d].Active? then docs[d].nodes else [], nextId, nextId')
    ensures IdsDistinct(docs[d := slot], nextId')
  {
    var docs' := docs[d := slot];
    forall i, p | At(docs', i, p)
      ensures docs'[i].nodes[p].id < nextId'
      ensures i != d ==> At(docs, i, p)
      ensures i == d ==> nextId <= docs'[i].nodes[p].id
                         || exists q :: At(docs, d, q) && docs[d].nodes[q].id == docs'[d].nodes[p].id
    {
      if i != d {
        assert At(docs, i, p);
      } else if !(nextId <= docs'[i].nodes[p].id < nextId') {
        var q :| 0 <= q < |docs[d].nodes| && docs[d].nodes[q].id == docs'[d].nodes[p].id;
        assert At(docs, d, q);
      }
    }
  }

  lemma SameNodesIds(nodes: seq<Node>, docs: seq<Slot>, d: nat, nextId: nat)
    requires IdsDistinct(docs, nextId) && d < |docs| && docs[d].Active? && docs[d].nodes == nodes
    ensures IdsFrom(nodes, nodes, nextId, nextId)
  {
    forall p, q | 0 <= p < q < |nodes|
      ensures nodes[p].id != nodes[q].id
    {
      assert At(docs, d, p) && At(docs, d, q);
    }
    assert forall p | 0 <= p < |nodes| :: exists q :: 0 <= q < |nodes| && nodes[q].id == nodes[p].id;
  }

  lemma DocsUpdate(docs: seq<Slot>, d: nat, slot: Slot, nextId: nat, nextId': nat)
    requires DocsOk(docs, nextId) && d < |docs| && nextId <= nextId'
    requires slot.Active? ==> IdsFrom(slot.nodes, if docs[d].Active? then docs[d].nodes else [], nextId, nextId')
    requires slot.Active? ==> Holds(docs[d], slot.name) || forall i | 0 <= i < |docs| :: !Holds(docs[i], slot.name)
    requires SlotShaped(slot)
    ensures DocsOk(docs[d := slot], nextId')
  {
    IdsUpdate(docs, d, slot, nextId, nextId');
    var docs' := docs[d := slot];
    forall i, j | 0 <= i < j < |docs| && docs'[i].Active? && docs'[j].Active?
      ensures docs'[i].name != docs'[j].name
    {
      assert i == d ==> Holds(docs[j], docs[j].name);
      assert j == d ==> Holds(docs[i], docs[i].name);
    }
  }

  // ---------- initial state and loading ----------

  lemma InitInv(disk: map<string, string>)
    ensures Inv(Init(disk))
  {
  }

  lemma FreshContents(d: Doc, base: nat)
    ensures Contents(Fresh(d, base)) == d
  {
  }

  lemma LoadInv(s: Server, name: string)
    requires Inv(s)
    ensures Inv(FindOrLoad(s, name).0)
  {
    var found, empty := FindDoc(s.docs, name, 0), FindEmpty(s.docs, 0);
    if found == -1 && empty != -1 && name in s.disk {
      var d := Parse(s.disk[name]);
      var slot := Active(name, Fresh(d, s.nextId), 0);
      FreshContents(d, s.nextId);
      ParseIsNormal(s.disk[name]);
      WellFormedIsShaped(d);
      DocsUpdate(s.docs, empty, slot, s.nextId, s.nextId + |d|);
      LoadSessions(s.docs, s.sessions, empty, slot);
    }
  }

  lemma LoadSessions(docs: seq<Slot>, sessions: map<nat, Session>, empty: nat, slot: Slot)
    requires SessionsOk(docs, sessions, {}) && UsersCounted(docs, sessions)
    requires empty < |docs| && docs[empty].Empty? && slot.Active? && slot.users == 0
    ensures SessionsOk(docs[empty := slot], sessions, {})
    ensures Held(docs[empty := slot], sessions) == Held(docs, sessions)
    ensures UsersCounted(docs[empty := slot], sessions)
  {
    assert forall k | k in sessions :: InDoc(docs, sessions[k]);
    SessionsFrame(docs, docs[empty := slot], sessions);
    assert Editing(sessions, empty) == {};
  }

  // ---------- granting a lock ----------

  lemma GrantLocks(locks: seq<Lock>, held: map<nat, Lock>, lock: Lock)
    requires LocksMatch(locks, held) && lock.Lock? && lock.sock !in held
    requires FindFreeLock(locks, 0) != -1
    ensures LocksMatch(locks[FindFreeLock(locks, 0) := lock], held[lock.sock := lock])
  {
    var f := FindFreeLock(locks, 0);
    var locks' := locks[f := lock];
    var held' := held[lock.sock := lock];
    assert locks'[f] == lock;
    forall k | k in held'
      ensures HasLock(locks', held'[k])
    {
      if k != lock.sock {
        assert HasLock(locks, held[k]);
        var i :| 0 <= i < |locks| && locks[i] == held[k];
        assert locks'[i] == held[k];
      }
    }
  }

  /** Every session's sentence is found locked. */
  lemma HolderIsLocked(locks: seq<Lock>, held: map<nat, Lock>, k: nat)
    requires LocksMatch(locks, held) && k in held && held[k].Lock?
    ensures FindLock(locks, held[k].name, held[k].node, 0) != -1
  {
    assert HasLock(locks, held[k]);
  }

  /** A session's sentence is a node of its document. */
  lemma SessionAt(docs: seq<Slot>, sessions: map<nat, Session>, closing: set<nat>, k: nat) returns (p: nat)
    requires SessionsOk(docs, sessions, closing) && k in sessions && k !in closing
    ensures At(docs, sessions[k].doc, p) && docs[sessions[k].doc].nodes[p].id == sessions[k].node
    ensures p == FindNode(docs[sessions[k].doc].nodes, sessions[k].node)
  {
    assert InDoc(docs, sessions[k]) && SessionOk(docs[sessions[k].doc], sessions[k]);
    p := FindNode(docs[sessions[k].doc].nodes, sessions[k].node);
  }

  /** A sentence without a lock is held by no session. */
  lemma UnlockedIsFree(s: Server, d: nat, i: nat)
    requires Inv(s) && At(s.docs, d, i)
    requires FindLock(s.locks, s.docs[d].name, s.docs[d].nodes[i].id, 0) == -1
    ensures forall k | k in s.sessions :: s.sessions[k].node != s.docs[d].nodes[i].id
  {
    var held := Held(s.docs, s.sessions);
    forall k | k in s.sessions
      ensures s.sessions[k].node != s.docs[d].nodes[i].id
    {
      var p := SessionAt(s.docs, s.sessions, {}, k);
      HolderIsLocked(s.locks, held, k);
    }
  }

  lemma FoundNode(docs: seq<Slot>, nextId: nat, d: nat, i: nat)
    requires IdsDistinct(docs, nextId) && At(docs, d, i)
    ensures FindNode(docs[d].nodes, docs[d].nodes[i].id) == i
  {
    assert At(docs, d, FindNode(docs[d].nodes, docs[d].nodes[i].id));
  }

  lemma EditingAdd(sessions: map<nat, Session>, sock: nat, session: Session, a: int)
    requires sock !in sessions
    ensures |Editing(sessions[sock := session], a)| == |Editing(sessions, a)| + if a == session.doc then 1 else 0
  {
    var sessions' := sessions[sock := session];
    assert Editing(sessions', a) == Editing(sessions, a) + if a == session.doc then {sock} else {};
  }

  lemma GrantUsers(docs: seq<Slot>, sessions: map<nat, Session>, sock: nat, session: Session)
    requires UsersCounted(docs, sessions) && InDoc(docs, session) && sock !in sessions
    ensures UsersCounted(docs[session.doc := docs[session.doc].(users := docs[session.doc].users + 1)],
                         sessions[sock := session])
  {
    var docs' := docs[session.doc := docs[session.doc].(users := docs[session.doc].users + 1)];
    var sessions' := sessions[sock := session];
    forall a | 0 <= a < |docs'| && docs'[a].Active?
      ensures docs'[a].users == |Editing(sessions', a)|
    {
      EditingAdd(sessions, sock, session, a);
    }
  }

  /** Sessions look only at the nodes of their document. */
  lemma SessionsFrame(docs: seq<Slot>, docs': seq<Slot>, sessions: map<nat, Session>)
    requires SessionsOk(docs, sessions, {}) && |docs'| == |docs|
    requires forall k | k in sessions :: InDoc(docs, sessions[k]) && docs'[sessions[k].doc].Active? &&
               docs'[sessions[k].doc].nodes == docs[sessions[k].doc].nodes &&
               docs'[sessions[k].doc].name == docs[sessions[k].doc].name
    ensures SessionsOk(docs', sessions, {}) && Held(docs', sessions) == Held(docs, sessions)
  {
    forall k | k in sessions
      ensures InDoc(docs', sessions[k]) && SessionOk(docs'[sessions[k].doc], sessions[k])
      ensures DocName(docs', sessions[k].doc) == DocName(docs, sessions[k].doc)
    {
      assert InDoc(docs, sessions[k]) && SessionOk(docs[sessions[k].doc], sessions[k]);
    }
  }

  lemma GrantSessions(docs: seq<Slot>, sessions: map<nat, Session>, sock: nat, session: Session)
    requires SessionsOk(docs, sessions, {}) && InDoc(docs, session)
    requires sock !in sessions && SessionOk(docs[session.doc], session)
    ensures SessionsOk(docs, sessions[sock := session], {})
    ensures Held(docs, sessions[sock := session])
         == Held(docs, sessions)[sock := Lock(docs[session.doc].name, session.node, sock)]
  {
    assert forall k | k in sessions :: InDoc(docs, sessions[k]) && SessionOk(docs[sessions[k].doc], sessions[k]);
  }

  lemma GrantInv(s: Server, sock: nat, d: nat, i: nat)
    requires Inv(s) && sock !in s.sessions && FindFreeLock(s.locks, 0) != -1
    requires At(s.docs, d, i)
    requires FindLock(s.locks, s.docs[d].name, s.docs[d].nodes[i].id, 0) == -1
    ensures Inv(Grant(s, sock, d, s.docs[d].nodes[i]))
  {
    var node, slot := s.docs[d].nodes[i], s.docs[d];
    var session := Session(d, node.id, |node.words|, [], 0);
    NewSessionOk(s.docs, s.nextId, d, i);
    UnlockedIsFree(s, d, i);
    GrantParts(s, Grant(s, sock, d, node), sock, session);
  }

  lemma NewSessionOk(docs: seq<Slot>, nextId: nat, d: nat, i: nat)
    requires IdsDistinct(docs, nextId) && At(docs, d, i)
    ensures SessionOk(docs[d], Session(d, docs[d].nodes[i].id, |docs[d].nodes[i].words|, [], 0))
  {
    FoundNode(docs, nextId, d, i);
  }

  lemma GrantParts(s: Server, s1: Server, sock: nat, session: Session)
    requires Inv(s) && sock !in s.sessions && InDoc(s.docs, session) && SessionOk(s.docs[session.doc], session)
    requires forall k | k in s.sessions :: s.sessions[k].node != session.node
    requires FindFreeLock(s.locks, 0) != -1
    requires s1 == s.(docs := s.docs[session.doc := s.docs[session.doc].(users := s.docs[session.doc].users + 1)],
                      sessions := s.sessions[sock := session],
                      locks := s.locks[FindFreeLock(s.locks, 0) := Lock(s.docs[session.doc].name, session.node, sock)])
    ensures Inv(s1)
  {
    GrantTables(s, s1, sock, session);
    GrantUsers(s.docs, s.sessions, sock, session);
    GrantExclusive(s.sessions, sock, session);
    GrantDocs(s.docs, session.doc, s.nextId);
  }

  lemma GrantExclusive(sessions: map<nat, Session>, sock: nat, session: Session)
    requires Exclusive(sessions) && sock !in sessions
    requires forall k | k in sessions :: sessions[k].node != session.node
    ensures Exclusive(sessions[sock := session])
  {
  }

  lemma GrantTables(s: Server, s1: Server, sock: nat, session: Session)
    requires SessionsOk(s.docs, s.sessions, {}) && LocksMatch(s.locks, Held(s.docs, s.sessions))
    requires sock !in s.sessions && InDoc(s.docs, session) && SessionOk(s.docs[session.doc], session)
    requires FindFreeLock(s.locks, 0) != -1
    requires s1.docs == s.docs[session.doc := s.docs[session.doc].(users := s.docs[session.doc].users + 1)]
    requires s1.sessions == s.sessions[sock := session]
    requires s1.locks == s.locks[FindFreeLock(s.locks, 0) := Lock(s.docs[session.doc].name, session.node, sock)]
    ensures SessionsOk(s1.docs, s1.sessions, {}) && LocksMatch(s1.locks, Held(s1.docs, s1.sessions))
  {
    assert forall k | k in s.sessions :: InDoc(s.docs, s.sessions[k]);
    SessionsFrame(s.docs, s1.docs, s.sessions);
    assert SessionOk(s1.docs[session.doc], session);
    GrantSessions(s1.docs, s.sessions, sock, session);
    GrantLocks(s.locks, Held(s.docs, s.sessions), Lock(s.docs[session.doc].name, session.node, sock));
  }

  lemma GrantDocs(docs: seq<Slot>, d: nat, nextId: nat)
    requires DocsOk(docs, nextId) && d < |docs| && docs[d].Active?
    ensures DocsOk(docs[d := docs[d].(users := docs[d].users + 1)], nextId)
  {
    SameNodesIds(docs[d].nodes, docs, d, nextId);
    assert SlotShaped(docs[d]);
    DocsUpdate(docs, d, docs[d].(users := docs[d].users + 1), nextId, nextId);
  }

  /** What WRITE does, by what it finds. */
  lemma WriteCases(s: Server, sock: nat, name: string, sentence: int)
    ensures var (s1, d) := FindOrLoad(s, name);
            var i := if sentence < 0 then 0 else sentence;
            && (Grants(s, name, sentence) <==> HandleWrite(s, sock, name, sentence).1 == OkLocked)
            && HandleWrite(s, sock, name, sentence).0
               == if Grants(s, name, sentence) then Grant(s1, sock, d, s1.docs[d].nodes[i]) else s1
  {
  }

  lemma WriteInv(s: Server, sock: nat, name: string, sentence: int)
    requires Inv(s) && Guard(s, Write(sock, name, sentence))
    ensures Inv(HandleWrite(s, sock, name, sentence).0)
  {
    LoadInv(s, name);
    WriteCases(s, sock, name, sentence);
    var (s1, d) := FindOrLoad(s, name);
    if Grants(s, name, sentence) {
      GrantInv(s1, sock, d, if sentence < 0 then 0 else sentence);
    }
  }

  // ---------- queueing an edit ----------

  lemma RecordOk(slot: Slot, session: Session, index: int, content: string)
    requires SessionOk(slot, session)
    requires 0 <= index <= session.origCount + session.virt
    ensures SessionOk(slot, Record(session, index, content))
  {
    AcceptedSnoc(session.origCount, session.edits, Edit(index, content));
  }

  lemma UpdateInv(s: Server, sock: nat, index: int, content: string)
    requires Inv(s)
    ensures Inv(HandleUpdate(s, sock, index, content).0)
  {
    if sock in s.sessions {
      var session := s.sessions[sock];
      assert InDoc(s.docs, session) && SessionOk(s.docs[session.doc], session);
      if 0 <= index <= session.origCount + session.virt {
        RecordOk(s.docs[session.doc], session, index, content);
        ReplaceSession(s.docs, s.sessions, sock, Record(session, index, content));
      }
    }
  }

  lemma ReplaceSession(docs: seq<Slot>, sessions: map<nat, Session>, sock: nat, session: Session)
    requires SessionsOk(docs, sessions, {}) && UsersCounted(docs, sessions)
    requires sock in sessions && InDoc(docs, session)
    requires session.doc == sessions[sock].doc && session.node == sessions[sock].node
    requires SessionOk(docs[session.doc], session)
    ensures var sessions' := sessions[sock := session];
            && SessionsOk(docs, sessions', {}) && UsersCounted(docs, sessions')
            && Held(docs, sessions') == Held(docs, sessions)
  {
    var sessions' := sessions[sock := session];
    assert forall d :: Editing(sessions', d) == Editing(sessions, d);
    assert InDoc(docs, sessions[sock]);
    forall k | k in sessions'
      ensures InDoc(docs, sessions'[k]) && SessionOk(docs[sessions'[k].doc], sessions'[k])
    {
      assert k != sock ==> InDoc(docs, sessions[k]) && SessionOk(docs[sessions[k].doc], sessions[k]);
    }
  }

  // ---------- closing a session ----------

  lemma CloseLocks(locks: seq<Lock>, held: map<nat, Lock>, sock: nat)
    requires LocksMatch(locks, held) && sock in held && held[sock].Lock? && held[sock].sock == sock
    requires forall k | k in held && k != sock :: held[k].Lock? && held[k].node != held[sock].node
    ensures LocksMatch(ReleaseLock(locks, held[sock].name, held[sock].node), held - {sock})
  {
    var r := FindLock(locks, held[sock].name, held[sock].node, 0);
    assert HasLock(locks, held[sock]);
    assert r != -1 && locks[r] == held[sock];
    var locks' := locks[r := NoLock];
    forall k | k in held - {sock}
      ensures HasLock(locks', held[k])
    {
      assert HasLock(locks, held[k]);
      var i :| 0 <= i < |locks| && locks[i] == held[k];
      assert locks'[i] == held[k];
    }
    forall i | 0 <= i < |locks'| && locks'[i].Lock?
      ensures locks'[i].sock in held - {sock} && held[locks'[i].sock] == locks'[i]
    {
      assert locks[i] == locks'[i];
    }
  }

  lemma CloseUsers(docs: seq<Slot>, sessions: map<nat, Session>, sock: nat)
    requires sock in sessions && InDoc(docs, sessions[sock])
    requires SessionsOk(docs, sessions, {sock}) && UsersCounted(docs, sessions)
    ensures UsersCounted(ReleaseDoc(docs, sessions[sock].doc), sessions - {sock})
    ensures ReleaseDoc(docs, sessions[sock].doc)[sessions[sock].doc].Empty? <==>
              Editing(sessions - {sock}, sessions[sock].doc) == {}
  {
    var d := sessions[sock].doc;
    forall a | 0 <= a < |docs|
      ensures Editing(sessions - {sock}, a) == if a == d then Editing(sessions, a) - {sock} else Editing(sessions, a)
    {
    }
    assert sock in Editing(sessions, d);
    assert InDoc(docs, sessions[sock]);
  }

  /** A document is given up only when no session is left on it. */
  lemma CloseSessions(docs: seq<Slot>, sessions: map<nat, Session>, sock: nat)
    requires sock in sessions && InDoc(docs, sessions[sock])
    requires SessionsOk(docs, sessions, {sock}) && UsersCounted(docs, sessions)
    ensures var docs' := ReleaseDoc(docs, sessions[sock].doc);
            && SessionsOk(docs', sessions - {sock}, {})
            && Held(docs', sessions - {sock}) == Held(docs, sessions) - {sock}
  {
    var d := sessions[sock].doc;
    var docs', sessions' := ReleaseDoc(docs, d), sessions - {sock};
    CloseUsers(docs, sessions, sock);
    forall k | k in sessions'
      ensures InDoc(docs', sessions'[k]) && SessionOk(docs'[sessions'[k].doc], sessions'[k])
      ensures DocName(docs', sessions'[k].doc) == DocName(docs, sessions'[k].doc)
    {
      assert InDoc(docs, sessions[k]) && SessionOk(docs[sessions[k].doc], sessions[k]);
      if sessions[k].doc == d {
        assert k in Editing(sessions', d);
      }
    }
  }

  lemma CloseInv(s: Server, sock: nat)
    requires sock in s.sessions && InvClosing(s, {sock})
    ensures Inv(Close(s, sock))
  {
    var session := s.sessions[sock];
    var d := session.doc;
    assert InDoc(s.docs, session);
    CloseUsers(s.docs, s.sessions, sock);
    CloseSessions(s.docs, s.sessions, sock);
    CloseLocks(s.locks, Held(s.docs, s.sessions), sock);
    SameNodesIds(s.docs[d].nodes, s.docs, d, s.nextId);
    assert SlotShaped(s.docs[d]);
    DocsUpdate(s.docs, d, ReleaseDoc(s.docs, d)[d], s.nextId, s.nextId);
  }

  // ---------- committing ----------

  /** The sentence of a session never changes between lock and commit: the offset is 0, so the
      queued indices are replayed as accepted and all of them are in bounds. */
  lemma CommitReplays(slot: Slot, session: Session)
    requires SessionOk(slot, session)
    ensures var node := slot.nodes[FindNode(slot.nodes, session.node)];
            && |node.words| == session.origCount
            && Replay(node, session) == ApplyEdits(node.words, session.edits)
            && Replay(node, session).Some?
  {
    var node := slot.nodes[FindNode(slot.nodes, session.node)];
    AcceptedEditsReplay(session.origCount, node.words, session.edits);
  }

  lemma RelinkContents(nodes: seq<Node>, p: nat, run: seq<Node>)
    requires p < |nodes| && run != []
    ensures Contents(Relink(nodes, p, run)) == Contents(nodes[..p]) + Contents(run) + Contents(nodes[p + 1..])
    ensures Contents(nodes)
         == Contents(nodes[..p]) + [Sentence(nodes[p].words, nodes[p].delim)] + Contents(nodes[p + 1..])
  {
  }

  lemma RelinkWords(nodes: seq<Node>, p: nat, run: seq<Node>)
    requires p < |nodes| && run != []
    ensures WordsOf(Contents(Relink(nodes, p, run)))
         == WordsOf(Contents(nodes[..p])) + WordsOf(Contents(run)) + WordsOf(Contents(nodes[p + 1..]))
    ensures WordsOf(Contents(nodes))
         == WordsOf(Contents(nodes[..p])) + nodes[p].words + WordsOf(Contents(nodes[p + 1..]))
  {
    var a, b, c := Contents(nodes[..p]), Contents(run), Contents(nodes[p + 1..]);
    var one := [Sentence(nodes[p].words, nodes[p].delim)];
    RelinkContents(nodes, p, run);
    WordsOfConcat(a + b, c);
    WordsOfConcat(a, b);
    WordsOfConcat(a + one, c);
    WordsOfConcat(a, one);
    assert one[1..] == [];
    assert WordsOf(one) == nodes[p].words;
  }

  /** Replacing one sentence by a run under its own delimiter keeps the shape of the document. */
  lemma RelinkShaped(nodes: seq<Node>, p: nat, run: seq<Node>)
    requires Shaped(Contents(nodes)) && p < |nodes| && RunShaped(Contents(run), nodes[p].delim)
    ensures Shaped(Contents(Relink(nodes, p, run)))
  {
    var d, d' := Contents(nodes), Contents(Relink(nodes, p, run));
    forall i | 0 <= i < |d'|
      ensures (forall w | w in d'[i].words :: DelimFree(w))
           && (IsDelim(d'[i].delim) || (i == |d'| - 1 && d'[i].delim == ' '))
    {
      if i < p {
        assert d'[i] == d[i];
      } else if i < p + |run| {
        assert d'[i] == Contents(run)[i - p] && d[p].delim == nodes[p].delim;
      } else {
        assert d'[i] == d[i - |run| + 1];
      }
    }
  }

  /** Every node but the target is still in the list, as it was. */
  ghost predicate OthersKept(nodes: seq<Node>, p: nat, nodes': seq<Node>)
    requires p < |nodes|
  {
    forall q | 0 <= q < |nodes| && q != p :: nodes[q] in nodes'
  }

  /** The surgery keeps every other node exactly when there is a run or nothing to cut off. */
  lemma OthersKeptIff(nodes: seq<Node>, p: nat, d: Doc, base: nat)
    requires p < |nodes| && forall q | 0 <= q < |nodes| :: nodes[q].id < base
    requires forall i, j | 0 <= i < j < |nodes| :: nodes[i].id != nodes[j].id
    ensures OthersKept(nodes, p, Relink(nodes, p, Fresh(d, base))) <==> d != [] || p == |nodes| - 1
  {
    var nodes' := Relink(nodes, p, Fresh(d, base));
    if d != [] || p == |nodes| - 1 {
      forall q | 0 <= q < |nodes| && q != p
        ensures nodes[q] in nodes'
      {
        assert nodes[q] == if q < p then nodes'[q] else nodes'[q - 1 + |d|];
      }
    } else {
      assert nodes[p + 1] !in nodes';
    }
  }

  lemma RelinkIds(nodes: seq<Node>, p: nat, d: Doc, base: nat)
    requires p < |nodes| && forall q | 0 <= q < |nodes| :: nodes[q].id < base
    requires forall i, j | 0 <= i < j < |nodes| :: nodes[i].id != nodes[j].id
    ensures IdsFrom(Relink(nodes, p, Fresh(d, base)), nodes, base, base + |d|)
  {
    var run := Fresh(d, base);
    var nodes' := Relink(nodes, p, run);
    forall i | 0 <= i < |nodes'|
      ensures i < p ==> nodes'[i] == nodes[i]
      ensures p <= i < p + |d| ==> nodes'[i].id == base + (i - p)
      ensures p + |d| <= i ==> nodes'[i] == nodes[i + 1 - |d|]
    {
    }
  }

  /** A node kept in the list is found there. */
  lemma KeptIsFound(nodes: seq<Node>, nodes': seq<Node>, id: nat)
    requires FindNode(nodes, id) != -1 && nodes[FindNode(nodes, id)] in nodes'
    requires forall i, j | 0 <= i < j < |nodes'| :: nodes'[i].id != nodes'[j].id
    ensures FindNode(nodes', id) != -1 && nodes'[FindNode(nodes', id)] == nodes[FindNode(nodes, id)]
  {
    var j :| 0 <= j < |nodes'| && nodes'[j] == nodes[FindNode(nodes, id)];
    assert nodes'[j].id == id;
  }

  /** The words of a sentence in memory. */
  lemma NodeWords(nodes: seq<Node>, p: nat)
    requires Shaped(Contents(nodes)) && p < |nodes|
    ensures forall w | w in nodes[p].words :: DelimFree(w)
  {
    assert Contents(nodes)[p] == Sentence(nodes[p].words, nodes[p].delim);
  }

  lemma NoTokensIff(words: seq<string>, edits: seq<Edit>)
    requires ApplyEdits(words, edits).Some?
    ensures ApplyEdits(words, edits).value == [] <==> words == [] && EditTokens(edits) == []
    ensures EditTokens(edits) == [] ==> Virtual(edits) == 0
  {
    ApplyEditsTokens(words, edits);
    assert |multiset(ApplyEdits(words, edits).value)| == |multiset(words)| + |multiset(EditTokens(edits))|;
    VirtualIsCountText(edits);
  }

  /** The run a commit puts in the place of the sentence, whatever was queued. */
  lemma CommitRun(words: seq<string>, edits: seq<Edit>, delim: char)
    requires (forall w | w in words :: DelimFree(w)) && ApplyEdits(words, edits).Some?
    ensures var d := Split(ApplyEdits(words, edits).value, [], delim);
            RunShaped(d, delim) && (d == [] <==> words == [] && EditTokens(edits) == [])
  {
    ReplayedTokens(words, edits);
    SplitIsShaped(ApplyEdits(words, edits).value, [], delim);
    NoTokensIff(words, edits);
  }
}
