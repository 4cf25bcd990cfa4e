/** The storage server's tables and handlers, updated in place; `State` is the edit engine's view. */
module StorageServer {
  import opened Document
  import opened Rebuild
  import opened SentenceList
  import opened ActiveDocument
  import opened EditInvariant
  import opened Wrappers
  import EditRuns
  import EditDisk
  import E = EditEngine

  datatype LockInfo = Inactive | Held(filename: string, sentence: SentenceNode, sock: nat)

  datatype WriteSession =
    | Idle
    | Writing(docIndex: nat, sentence: SentenceNode, originalWordCount: nat, edits: seq<Edit>, virtualWordCount: nat)

  const MAX_CONNECTIONS := 1024

  ghost function LockValue(lock: LockInfo): E.Lock {
    match lock
    case Inactive => E.NoLock
    case Held(filename, sentence, sock) => E.Lock(filename, sentence.id, sock)
  }

  ghost function SessionValue(session: WriteSession): E.Session
    requires session.Writing?
  {
    E.Session(session.docIndex, session.sentence.id, session.originalWordCount, session.edits, session.virtualWordCount)
  }

  /** Ids tell the known nodes apart, and are below `nextId`. */
  ghost predicate IdsApart(known: set<SentenceNode>, nextId: nat) {
    && (forall m, n | m in known && n in known && m.id == n.id :: m == n)
    && (forall n | n in known :: n.id < nextId)
  }

  /** Nodes with consecutive new ids may join the known ones. */
  lemma NewNodesApart(known: set<SentenceNode>, nextId: nat, nodes: seq<SentenceNode>,
                      known': set<SentenceNode>, nextId': nat)
    requires IdsApart(known, nextId) && nextId <= nextId'
    requires forall n | n in known' && n !in known ::
               exists i :: 0 <= i < |nodes| && nodes[i] == n && n.id == nextId + i && n.id < nextId'
    ensures IdsApart(known', nextId')
  {
  }

  twostate lemma StaysValid(doc: ActiveDoc)
    requires unchanged(doc) && unchanged(doc.nodes) && old(doc.Valid())
    ensures doc.Valid()
  {
  }

  /** A table of empty slots. */
  method MakeSlots(n: nat) returns (slots: seq<ActiveDoc>)
    ensures |slots| == n
    ensures forall i | 0 <= i < n :: fresh(slots[i]) && !slots[i].active && slots[i].nodes == []
    ensures forall i, j | 0 <= i < j < n :: slots[i] != slots[j]
  {
    slots := [];
    for i := 0 to n
      invariant |slots| == i
      invariant forall j | 0 <= j < i :: fresh(slots[j]) && !slots[j].active && slots[j].nodes == []
      invariant forall j, k | 0 <= j < k < i :: slots[j] != slots[k]
    {
      var slot := new ActiveDoc();
      slots := slots + [slot];
    }
  }

  /** Move the first edit by the change of the sentence's word count. */
  method AdjustFirst(edits: seq<Edit>, offset: int) returns (edits': seq<Edit>)
    ensures edits' == E.Adjust(edits, offset)
  {
    edits' := edits;
    if |edits| > 0 && offset != 0 {
      edits' := edits[0 := edits[0].(index := edits[0].index + offset)];
    }
  }

  class Server {
    const docs: seq<ActiveDoc>
    const locks: array<LockInfo>
    const sessions: array<WriteSession>
    var disk: map<string, string>
    ghost var known: set<SentenceNode>
    ghost var nextId: nat

    // ---------- the view ----------

    ghost function LockTable(): seq<E.Lock>
      reads locks
    {
      seq(locks.Length, i requires 0 <= i < locks.Length reads locks => LockValue(locks[i]))
    }

    ghost function SessionTable(): map<nat, E.Session>
      reads sessions
    {
      map k: nat | k < sessions.Length && sessions[k].Writing? :: SessionValue(sessions[k])
    }

    /** The nodes of every slot are known. */
    ghost predicate DocsKnown()
      reads this, docs
    {
      forall i, n | 0 <= i < |docs| && n in docs[i].nodes :: n in known
    }

    ghost function SlotAt(i: nat): E.Slot
      requires i < |docs| && DocsKnown()
      reads this, docs, known
    {
      docs[i].Value()
    }

    ghost function Slots(): seq<E.Slot>
      requires DocsKnown()
      reads this, docs, known
    {
      seq(|docs|, i requires 0 <= i < |docs| && DocsKnown() reads this, docs, known => SlotAt(i))
    }

    ghost function State(): E.Server
      requires DocsKnown()
      reads this, docs, known, locks, sessions
    {
      E.Server(Slots(), LockTable(), SessionTable(), disk, nextId)
    }

    ghost predicate ValidAt(i: nat)
      requires i < |docs| && DocsKnown()
      reads this, docs, known
    {
      docs[i].Valid()
    }

    ghost predicate DocsValid()
      reads this, docs, known
    {
      && DocsKnown()
      && (forall i, j | 0 <= i < j < |docs| :: docs[i] != docs[j])
      && (forall i | 0 <= i < |docs| :: ValidAt(i))
      && (forall i, j, n | 0 <= i < |docs| && 0 <= j < |docs| && i != j && n in docs[i].nodes :: n !in docs[j].nodes)
    }

    ghost predicate IdsValid()
      reads this
    {
      IdsApart(known, nextId)
    }

    ghost predicate TablesValid()
      reads this, locks, sessions
    {
      && (forall i | 0 <= i < locks.Length && locks[i].Held? :: locks[i].sentence in known)
      && (forall k | 0 <= k < sessions.Length && sessions[k].Writing? :: sessions[k].sentence in known)
    }

    ghost predicate Valid()
      reads this, docs, known, locks, sessions
    {
      DocsValid() && IdsValid() && TablesValid()
    }

    /** Start-up: every slot free. */
    constructor (disk: map<string, string>)
      ensures Valid() && fresh(locks) && fresh(sessions) && sessions.Length == MAX_CONNECTIONS
      ensures State() == E.Init(disk) && Inv(State())
    {
      var slots := MakeSlots(E.MAX_FILES_IN_SYSTEM);
      docs := slots;
      locks := new LockInfo[E.MAX_LOCKS](_ => Inactive);
      sessions := new WriteSession[MAX_CONNECTIONS](_ => Idle);
      this.disk := disk;
      known, nextId := {}, 0;
      new;
      StartState(disk);
    }

    lemma StartState(disk: map<string, string>)
      requires |docs| == E.MAX_FILES_IN_SYSTEM && locks.Length == E.MAX_LOCKS
      requires forall i | 0 <= i < |docs| :: !docs[i].active && docs[i].nodes == []
      requires forall i, j | 0 <= i < j < |docs| :: docs[i] != docs[j]
      requires forall i | 0 <= i < locks.Length :: locks[i].Inactive?
      requires forall k | 0 <= k < sessions.Length :: sessions[k].Idle?
      requires this.disk == disk && known == {} && nextId == 0
      ensures Valid() && State() == E.Init(disk) && Inv(State())
    {
      assert Slots() == E.Init(disk).docs && LockTable() == E.Init(disk).locks && SessionTable() == map[];
      InitInv(disk);
    }

    // ---------- scans ----------

    method FindActiveDoc(filename: string) returns (index: int)
      requires Valid()
      ensures Valid() && State() == old(State())
      ensures index == E.FindDoc(Slots(), filename, 0)
    {
      index := 0;
      while index < |docs|
        invariant 0 <= index <= |docs| && Valid() && State() == old(State())
        invariant E.FindDoc(Slots(), filename, index) == E.FindDoc(Slots(), filename, 0)
      {
        assert Slots()[index] == SlotAt(index);
        if docs[index].active && docs[index].filename == filename {
          return;
        }
        index := index + 1;
      }
      index := -1;
    }

    method FindEmptyActiveDocSlot() returns (index: int)
      requires Valid()
      ensures Valid() && State() == old(State())
      ensures index == E.FindEmpty(Slots(), 0)
    {
      index := 0;
      while index < |docs|
        invariant 0 <= index <= |docs| && Valid() && State() == old(State())
        invariant E.FindEmpty(Slots(), index) == E.FindEmpty(Slots(), 0)
      {
        assert Slots()[index] == SlotAt(index);
        if !docs[index].active {
          return;
        }
        index := index + 1;
      }
      index := -1;
    }

    method FindLock(filename: string, sentence: SentenceNode) returns (index: int)
      requires IdsValid() && TablesValid() && sentence in known
      ensures LockTable() == old(LockTable()) && index == E.FindLock(LockTable(), filename, sentence.id, 0)
    {
      index := 0;
      while index < locks.Length
        invariant 0 <= index <= locks.Length
        invariant E.FindLock(LockTable(), filename, sentence.id, index)
               == E.FindLock(LockTable(), filename, sentence.id, 0)
      {
        assert LockTable()[index] == LockValue(locks[index]);
        if locks[index].Held? && locks[index].filename == filename && locks[index].sentence == sentence {
          return;
        }
        index := index + 1;
      }
      index := -1;
    }

    /** 0 when the sentence is locked already, 1 when a slot was taken, -1 when none was free. */
    method CreateLock(filename: string, sentence: SentenceNode, sock: nat) returns (code: int)
      requires IdsValid() && TablesValid() && sentence in known
      modifies locks
      ensures TablesValid()
      ensures LockTable() == E.CreateLock(old(LockTable()), filename, sentence.id, sock)
      ensures code == (if E.FindLock(old(LockTable()), filename, sentence.id, 0) != -1 then 0
                       else if E.FindFreeLock(old(LockTable()), 0) != -1 then 1 else -1)
    {
      var found := FindLock(filename, sentence);
      if found != -1 {
        return 0;
      }
      var i := 0;
      while i < locks.Length
        invariant 0 <= i <= locks.Length && TablesValid() && LockTable() == old(LockTable())
        invariant E.FindFreeLock(LockTable(), i) == E.FindFreeLock(LockTable(), 0)
      {
        assert LockTable()[i] == LockValue(locks[i]);
        if locks[i].Inactive? {
          locks[i] := Held(filename, sentence, sock);
          return 1;
        }
        i := i + 1;
      }
      code := -1;
    }

    method ReleaseLock(filename: string, sentence: SentenceNode)
      requires IdsValid() && TablesValid() && sentence in known
      modifies locks
      ensures TablesValid()
      ensures LockTable() == E.ReleaseLock(old(LockTable()), filename, sentence.id)
    {
      var i := FindLock(filename, sentence);
      if i != -1 {
        locks[i] := Inactive;
      }
    }

    /** Store a session slot. */
    method SetSession(sock: nat, session: WriteSession)
      requires TablesValid() && sock < sessions.Length && (session.Writing? ==> session.sentence in known)
      modifies sessions
      ensures TablesValid()
      ensures SessionTable() == if session.Writing? then old(SessionTable())[sock := SessionValue(session)]
                                else old(SessionTable()) - {sock}
    {
      sessions[sock] := session;
    }

    // ---------- documents ----------

    /** Only the slot at `d` has changed: the tables stay valid, and the view changes there. */
    twostate lemma ChangedDoc(d: nat)
      requires old(DocsValid()) && d < |docs| && DocsKnown()
      requires forall i | 0 <= i < |docs| && i != d :: unchanged(docs[i]) && unchanged(docs[i].nodes)
      requires docs[d].Valid() && forall n | n in docs[d].nodes :: n in old(docs[d].nodes) || n !in old(known)
      ensures DocsValid()
      ensures Slots() == old(Slots())[d := docs[d].Value()]
    {
      forall i | 0 <= i < |docs|
        ensures ValidAt(i) && (i != d ==> SlotAt(i) == old(SlotAt(i)))
      {
        if i != d {
          assert old(ValidAt(i));
          StaysValid(docs[i]);
        }
      }
    }

    /** Parse the file into the empty slot. */
    method LoadInto(slot: nat, filename: string)
      requires Valid() && slot < |docs| && SlotAt(slot).Empty? && filename in disk
      modifies this`known, this`nextId, docs[slot]
      ensures Valid()
      ensures var d := Parse(disk[filename]);
              State() == old(State()).(docs := old(Slots())[slot := E.Active(filename, E.Fresh(d, old(nextId)), 0)],
                                       nextId := old(nextId) + |d|)
    {
      ghost var d := Parse(disk[filename]);
      docs[slot].Load(filename, disk[filename], nextId);
      Remember(docs[slot].nodes, d);
      ChangedDoc(slot);
    }

    /** Find the document or load it from disk into a free slot. */
    method FindOrLoadActiveDoc(filename: string) returns (index: int)
      requires Valid()
      modifies this`known, this`nextId, docs
      ensures Valid()
      ensures index == E.FindOrLoad(old(State()), filename).1
      ensures State() == E.FindOrLoad(old(State()), filename).0
    {
      index := FindActiveDoc(filename);
      if index != -1 {
        return;
      }
      var slot := FindEmptyActiveDocSlot();
      if slot == -1 || filename !in disk {
        return -1;
      }
      index := slot;
      LoadInto(slot, filename);
    }

    /** Give up the document; the last user frees it. */
    method ReleaseActiveDoc(d: nat)
      requires DocsValid() && d < |docs| && docs[d].active
      modifies docs[d]
      ensures DocsValid()
      ensures Slots() == E.ReleaseDoc(old(Slots()), d)
    {
      assert old(Slots()[d] == SlotAt(d));
      docs[d].users := docs[d].users - 1;
      if docs[d].users <= 0 {
        docs[d].active := false;
      }
      assert docs[d].Valid() by {
        assert old(ValidAt(d));
      }
      ChangedDoc(d);
    }

    // ---------- handlers ----------

    /** One more user of the document. */
    method AddUser(d: nat)
      requires DocsValid() && d < |docs| && docs[d].active
      modifies docs[d]
      ensures DocsValid()
      ensures old(Slots())[d].Active? && Slots() == old(Slots())[d := old(Slots())[d].(users := old(docs[d].users) + 1)]
      ensures old(Slots())[d].users == old(docs[d].users)
    {
      assert old(Slots()[d] == SlotAt(d));
      docs[d].users := docs[d].users + 1;
      assert docs[d].Valid() by {
        assert old(ValidAt(d));
      }
      ChangedDoc(d);
    }

    /** Take a lock slot for the sentence and count the user. */
    method LockFor(sock: nat, d: nat, target: SentenceNode)
      requires Valid() && d < |docs| && docs[d].active && target in docs[d].nodes
      modifies locks, docs[d]
      ensures Valid()
      ensures var s := old(State());
              && s.docs[d].Active?
              && State() == s.(locks := E.CreateLock(s.locks, s.docs[d].name, target.id, sock),
                               docs := s.docs[d := s.docs[d].(users := s.docs[d].users + 1)])
    {
      assert old(Slots()[d] == SlotAt(d));
      var code := CreateLock(docs[d].filename, target, sock);
      AddUser(d);
    }

    /** Lock the sentence for the socket and open its session. */
    method Grant(sock: nat, d: nat, target: SentenceNode)
      requires Valid() && sock < sessions.Length && d < |docs| && docs[d].active && target in docs[d].nodes
      modifies locks, sessions, docs[d]
      ensures Valid()
      ensures State() == E.Grant(old(State()), sock, d, Value(target))
    {
      LockFor(sock, d, target);
      SetSession(sock, Writing(d, target, |target.words|, [], 0));
    }

    /** WRITE: load the document, find the sentence, and lock it unless somebody else has it. */
    method HandleClientWrite(sock: nat, filename: string, sentenceNum: int) returns (reply: E.Reply)
      requires Valid() && sock < sessions.Length
      modifies this`known, this`nextId, docs, locks, sessions
      ensures Valid() && (State(), reply) == E.HandleWrite(old(State()), sock, filename, sentenceNum)
    {
      var d := FindOrLoadActiveDoc(filename);
      if d == -1 {
        return E.Error;
      }
      var target := FindSentence(d, sentenceNum);
      if target == null {
        return E.ErrorInvalidSentence;
      }
      reply := LockSentence(sock, d, target);
    }

    /** The sentence with the given index, or null past the end. */
    method FindSentence(d: nat, sentenceNum: int) returns (target: SentenceNode?)
      requires Valid() && d < |docs| && docs[d].active
      ensures Valid() && State() == old(State()) && docs[d].active && docs[d].nodes == old(docs[d].nodes)
      ensures var i := if sentenceNum < 0 then 0 else sentenceNum;
              if target == null then i >= |Slots()[d].nodes|
              else i < |Slots()[d].nodes| && target in docs[d].nodes && Value(target) == Slots()[d].nodes[i]
    {
      assert Slots()[d] == SlotAt(d) && ValidAt(d);
      target := Nth(docs[d].head, sentenceNum, docs[d].nodes);
    }

    /** Refuse a locked sentence, grant a free one. */
    method LockSentence(sock: nat, d: nat, target: SentenceNode) returns (reply: E.Reply)
      requires Valid() && sock < sessions.Length && d < |docs| && docs[d].active && target in docs[d].nodes
      modifies docs[d], locks, sessions
      ensures Valid()
      ensures var s := old(State());
              s.docs[d].Active? &&
              (State(), reply) == if E.FindLock(s.locks, s.docs[d].name, target.id, 0) != -1 then (s, E.ErrorLocked)
                                  else (E.Grant(s, sock, d, old(Value(target))), E.OkLocked)
    {
      assert Slots()[d] == SlotAt(d);
      var found := FindLock(docs[d].filename, target);
      if found != -1 {
        return E.ErrorLocked;
      }
      Grant(sock, d, target);
      reply := E.OkLocked;
    }

    /** Release the lock and end the session. */
    method EndSession(sock: nat)
      requires Valid() && sock < sessions.Length && sessions[sock].Writing?
      requires sessions[sock].docIndex < |docs| && docs[sessions[sock].docIndex].active
      modifies locks, sessions
      ensures Valid() && sock in old(State()).sessions
      ensures var s := old(State());
              var session := s.sessions[sock];
              && session.doc == old(sessions[sock].docIndex) && s.docs[session.doc].Active?
              && State() == s.(locks := E.ReleaseLock(s.locks, s.docs[session.doc].name, session.node),
                               sessions := s.sessions - {sock})
    {
      var session := sessions[sock];
      assert Slots()[session.docIndex] == SlotAt(session.docIndex);
      ReleaseLock(docs[session.docIndex].filename, session.sentence);
      SetSession(sock, Idle);
    }

    /** Release the lock, end the session, give up the document. */
    method CloseSession(sock: nat)
      requires Valid() && sock < sessions.Length && sessions[sock].Writing?
      requires sessions[sock].docIndex < |docs| && docs[sessions[sock].docIndex].active
      modifies locks, sessions, docs[sessions[sock].docIndex]
      ensures Valid() && sock in old(State()).sessions && State() == E.Close(old(State()), sock)
    {
      var d := sessions[sock].docIndex;
      EndSession(sock);
      ReleaseActiveDoc(d);
    }

    /** The client is gone: close its session, if it has one. */
    method HandleClientDisconnect(sock: nat)
      requires Valid() && Inv(State()) && sock < sessions.Length
      modifies locks, sessions, docs
      ensures Valid() && State() == E.HandleDisconnect(old(State()), sock) && Inv(State())
    {
      EditRuns.DisconnectInv(State(), sock);
      if sessions[sock].Writing? {
        LiveSession(sock);
        CloseSession(sock);
      }
    }

    /** The session's document is active, and its sentence is the node the engine finds there. */
    lemma LiveSession(sock: nat)
      requires Valid() && Inv(State()) && sock < sessions.Length && sessions[sock].Writing?
      ensures var session := sessions[sock];
              && session.docIndex < |docs| && docs[session.docIndex].active
              && session.sentence in docs[session.docIndex].nodes
              && E.Target(State(), SessionValue(session)) == Some(Value(session.sentence))
    {
      var session, s := sessions[sock], State();
      assert sock in s.sessions && s.sessions[sock] == SessionValue(session);
      SessionsAreLive(s, sock);
      assert Slots()[session.docIndex] == SlotAt(session.docIndex);
      var nodes := docs[session.docIndex].nodes;
      var p := E.FindNode(Values(nodes), session.sentence.id);
      assert nodes[p].id == Values(nodes)[p].id == session.sentence.id && nodes[p] in known;
    }

    /** Queue an edit of the session's sentence. */
    method HandleWriteUpdate(sock: nat, wordIndex: int, content: string) returns (replies: seq<E.Reply>)
      requires Valid() && Inv(State()) && sock < sessions.Length
      modifies sessions
      ensures Valid() && (State(), replies) == E.HandleUpdate(old(State()), sock, wordIndex, content)
    {
      if sessions[sock].Idle? {
        return [];
      }
      LiveSession(sock);
      var session := sessions[sock];
      if wordIndex < 0 || wordIndex > |session.sentence.words| + session.virtualWordCount {
        return [E.Error];
      }
      QueueEdit(sock, wordIndex, content);
      replies := [E.Ok];
    }

    /** Append the edit and count its words. */
    method QueueEdit(sock: nat, wordIndex: int, content: string)
      requires Valid() && sock < sessions.Length && sessions[sock].Writing?
      modifies sessions
      ensures Valid() && sock in old(State()).sessions
      ensures var s := old(State());
              State() == s.(sessions := s.sessions[sock := E.Record(s.sessions[sock], wordIndex, content)])
    {
      var session := sessions[sock];
      var added := CountWordsInString(content);
      SetSession(sock, session.(edits := session.edits + [Edit(wordIndex, content)],
                                virtualWordCount := session.virtualWordCount + added));
    }

    /** A node's position is where its id is found. */
    lemma FoundAt(d: nat, p: nat)
      requires DocsValid() && IdsValid() && d < |docs| && docs[d].active && p < |docs[d].nodes|
      ensures E.FindNode(Values(docs[d].nodes), docs[d].nodes[p].id) == p
    {
      var nodes := docs[d].nodes;
      assert ValidAt(d);
      var q := E.FindNode(Values(nodes), nodes[p].id);
      assert Values(nodes)[p].id == nodes[p].id;
      assert nodes[q].id == Values(nodes)[q].id && nodes[q] in known && nodes[p] in known;
    }

    /** The nodes of other slots are not touched by work on the nodes of slot `d`. */
    lemma NodesApart(d: nat)
      requires DocsValid() && d < |docs|
      ensures forall i, j | 0 <= i < |docs| && i != d && 0 <= j < |docs[i].nodes| :: docs[i].nodes[j] !in docs[d].nodes
    {
      forall i, j | 0 <= i < |docs| && i != d && 0 <= j < |docs[i].nodes|
        ensures docs[i].nodes[j] !in docs[d].nodes
      {
        assert docs[i].nodes[j] in docs[i].nodes;
      }
    }

    /** The nodes of a run, built on new ids, become known. */
    ghost method Remember(run: seq<SentenceNode>, d: Doc)
      requires IdsValid() && Values(run) == E.Fresh(d, nextId)
      modifies this`known, this`nextId
      ensures IdsValid() && nextId == old(nextId) + |d|
      ensures known == old(known) + set n | n in run
    {
      FreshIds(run, d, nextId);
      known := known + set n | n in run;
      NewNodesApart(old(known), nextId, run, known, nextId + |run|);
      nextId := nextId + |run|;
    }

    /** The commit's list surgery on the document in slot `d`; new nodes get new ids. */
    method SwapSentence(d: nat, target: SentenceNode, edits: seq<Edit>, ghost sentences: Doc)
      returns (rc: int, ghost p: nat)
      requires Valid() && d < |docs| && docs[d].active && target in docs[d].nodes
      requires sentences == match ApplyEdits(target.words, edits)
                            case None => []
                            case Some(toks) => Split(toks, [], target.delimiter)
      modifies this`known, this`nextId, docs[d], docs[d].nodes
      ensures Valid() && p < |old(docs[d].nodes)| && old(docs[d].nodes)[p] == target
      ensures rc == (if ApplyEdits(old(target.words), edits).Some? then 0 else -1)
      ensures docs[d].active && docs[d].filename == old(docs[d].filename) && docs[d].users == old(docs[d].users)
      ensures Values(docs[d].nodes) == if rc == -1 then old(Values(docs[d].nodes))
                                       else E.Relink(old(Values(docs[d].nodes)), p, E.Fresh(sentences, old(nextId)))
      ensures nextId == old(nextId) + |sentences| && Slots() == old(Slots())[d := docs[d].Value()]
    {
      assert ValidAt(d);
      NodesApart(d);
      ghost var run, nodes0 := [], docs[d].nodes;
      rc, p, run := docs[d].ApplySessionEdits(target, edits, nextId);
      Remember(run, sentences);
      SplicedFrom(nodes0, p, run, docs[d].nodes);
      ChangedDoc(d);
    }

    method RebuildDoc(d: nat, target: SentenceNode, edits: seq<Edit>) returns (rc: int, ghost p: nat)
      requires Valid() && d < |docs| && docs[d].active && target in docs[d].nodes
      modifies this`known, this`nextId, docs[d], docs[d].nodes
      ensures Valid() && p < |old(docs[d].nodes)| && old(docs[d].nodes)[p] == target
      ensures rc == (if ApplyEdits(old(target.words), edits).Some? then 0 else -1)
      ensures rc == -1 ==> Slots() == old(Slots()) && nextId == old(nextId)
      ensures rc == 0 ==>
                var sentences := Split(ApplyEdits(old(target.words), edits).value, [], old(target.delimiter));
                var nodes' := E.Relink(old(Values(docs[d].nodes)), p, E.Fresh(sentences, old(nextId)));
                && nextId == old(nextId) + |sentences|
                && Slots() == old(Slots())[d := E.Active(old(docs[d].filename), nodes', old(docs[d].users))]
    {
      ghost var sentences :=
        match ApplyEdits(target.words, edits)
        case None => []
        case Some(toks) => Split(toks, [], target.delimiter);
      assert Slots()[d] == SlotAt(d);
      rc, p := SwapSentence(d, target, edits, sentences);
    }

    /** The same, as the engine sees it. */
    method RebuildSentence(d: nat, target: SentenceNode, edits: seq<Edit>) returns (rc: int)
      requires Valid() && d < |docs| && docs[d].active && target in docs[d].nodes
      modifies this`known, this`nextId, docs[d], docs[d].nodes
      ensures Valid()
      ensures var s := old(State());
              var p := E.FindNode(s.docs[d].nodes, target.id);
              && s.docs[d].Active? && p != -1 && s.docs[d].nodes[p] == old(Value(target))
              && match ApplyEdits(old(target.words), edits)
                 case None => rc == -1 && State() == s
                 case Some(toks) => rc == 0 && State() == E.Rebuilt(s, d, p, toks)
    {
      assert Slots()[d] == SlotAt(d);
      ghost var nodes0, values0 := docs[d].nodes, Values(docs[d].nodes);
      forall q | 0 <= q < |nodes0|
        ensures E.FindNode(values0, nodes0[q].id) == q && values0[q] == Value(nodes0[q])
      {
        FoundAt(d, q);
      }
      ghost var p;
      rc, p := RebuildDoc(d, target, edits);
    }

    /** The word count of the document in slot `d`. */
    method CountWords(d: nat) returns (count: nat)
      requires Valid() && d < |docs| && docs[d].active
      ensures Valid() && State() == old(State()) && count == E.WordCount(Values(docs[d].nodes))
    {
      assert ValidAt(d);
      count := CountDocWords(docs[d].head, docs[d].nodes);
    }

    /** What the flusher writes for the document in slot `d`. */
    method DocText(d: nat) returns (text: string)
      requires Valid() && d < |docs| && docs[d].active
      ensures Valid() && State() == old(State()) && text == Flush(E.Contents(Values(docs[d].nodes)))
    {
      assert ValidAt(d);
      text := FlushList(docs[d].head, docs[d].nodes);
    }

    /** Rename the file to its backup, then write it anew. */
    method SaveFile(path: string, text: string)
      requires Valid()
      modifies this`disk
      ensures Valid() && State() == old(State()).(disk := E.SaveFile(old(disk), path, text))
    {
      if path in disk {
        disk := (disk - {path})[E.BackupName(path) := disk[path]];
      }
      disk := disk[path := text];
      assert Slots() == old(Slots()) && forall i | 0 <= i < |docs| :: ValidAt(i) == old(ValidAt(i));
    }

    /** Write the document if it grew by as many words as were counted. */
    method WriteChecked(d: nat, before: nat, virt: nat) returns (written: bool)
      requires Valid() && d < |docs| && docs[d].active
      modifies this`disk
      ensures Valid() && docs[d].active
      ensures old(State()).docs[d].Active? && State() == E.Written(old(State()), d, before, virt)
      ensures written <==> E.WordCount(old(State()).docs[d].nodes) - before == virt
    {
      assert Slots()[d] == SlotAt(d);
      var after := CountWords(d);
      written := after - before == virt;
      if written {
        var text := DocText(d);
        SaveFile(docs[d].filename, text);
      }
    }

    /** Rebuild the sentence and write the file: all of ETIRW but the end of the session. */
    method CommitSentence(d: nat, target: SentenceNode, edits: seq<Edit>, virt: nat) returns (replies: seq<E.Reply>)
      requires Valid() && d < |docs| && docs[d].active && target in docs[d].nodes
      modifies this`disk, this`known, this`nextId, docs[d], docs[d].nodes
      ensures Valid() && docs[d].active
      ensures var s := old(State());
              var p := E.FindNode(s.docs[d].nodes, target.id);
              && s.docs[d].Active? && p != -1 && s.docs[d].nodes[p] == old(Value(target))
              && (State(), replies) == E.Commit(s, d, p, ApplyEdits(old(target.words), edits), virt)
    {
      assert Slots()[d] == SlotAt(d);
      var before := CountWords(d);
      var rc := RebuildSentence(d, target, edits);
      assert Slots()[d] == SlotAt(d);
      if rc != 0 {
        return [E.Error];
      }
      var written := WriteChecked(d, before, virt);
      replies := if written then [] else [E.ErrorInvalidSentence];
    }

    /** ETIRW: rebuild the sentence, check the word count, write the file, end the session. */
    method HandleEtirw(sock: nat) returns (replies: seq<E.Reply>)
      requires Valid() && Inv(State()) && sock < sessions.Length
      modifies this`disk, this`known, this`nextId, locks, sessions, docs, known
      ensures Valid() && (State(), replies) == E.HandleEtirw(old(State()), sock)
    {
      if sessions[sock].Idle? {
        return [];
      }
      LiveSession(sock);
      replies := CommitSession(sock);
    }

    /** The session is on a document in memory, and its sentence is a node of it. */
    ghost predicate OnSentence(sock: nat)
      reads docs, sessions
    {
      && sock < sessions.Length && sessions[sock].Writing?
      && sessions[sock].docIndex < |docs| && docs[sessions[sock].docIndex].active
      && sessions[sock].sentence in docs[sessions[sock].docIndex].nodes
    }

    /** Commit the sentence, then end the session whatever came of it. */
    method CommitSession(sock: nat) returns (replies: seq<E.Reply>)
      requires Valid() && OnSentence(sock)
      modifies this`disk, this`known, this`nextId, locks, sessions
      modifies docs[sessions[sock].docIndex], docs[sessions[sock].docIndex].nodes
      ensures Valid() && (State(), replies) == E.HandleEtirw(old(State()), sock)
    {
      replies := CommitWork(sock);
      CloseSession(sock);
      replies := replies + [E.Ok];
    }

    /** The session as the engine sees it. */
    lemma InSessionTable(sock: nat)
      requires Valid() && OnSentence(sock)
      ensures var s, session := State(), SessionValue(sessions[sock]);
              && sock in s.sessions && s.sessions[sock] == session
              && s.docs[session.doc] == SlotAt(session.doc)
    {
    }

    /** The edits to replay: the sentence is searched once more, and the first edit moved by the change
        of its word count. */
    method EditsToReplay(sock: nat) returns (edits: seq<Edit>)
      requires Valid() && OnSentence(sock)
      ensures var session := sessions[sock];
              ApplyEdits(session.sentence.words, edits) == E.Replay(Value(session.sentence), SessionValue(session))
    {
      var session := sessions[sock];
      var found := InDocument(session.docIndex, session.sentence);
      if !found {
        assert false;
      }
      edits := AdjustFirst(session.edits, |session.sentence.words| - session.originalWordCount);
    }

    method CommitWork(sock: nat) returns (replies: seq<E.Reply>)
      requires Valid() && OnSentence(sock)
      modifies this`disk, this`known, this`nextId
      modifies docs[sessions[sock].docIndex], docs[sessions[sock].docIndex].nodes
      ensures Valid() && docs[sessions[sock].docIndex].active
      ensures var s, session := old(State()), SessionValue(sessions[sock]);
              && sock in s.sessions && s.sessions[sock] == session && s.docs[session.doc].Active?
              && var p := E.FindNode(s.docs[session.doc].nodes, session.node);
                 p != -1 &&
                 (State(), replies)
                 == E.Commit(s, session.doc, p, E.Replay(s.docs[session.doc].nodes[p], session), session.virt)
    {
      var session := sessions[sock];
      InSessionTable(sock);
      var edits := EditsToReplay(sock);
      replies := CommitSentence(session.docIndex, session.sentence, edits, session.virtualWordCount);
    }

    /** The handler's own search for the locked sentence. */
    method InDocument(d: nat, target: SentenceNode) returns (found: bool)
      requires Valid() && d < |docs| && docs[d].active
      ensures Valid() && State() == old(State()) && found == (target in docs[d].nodes)
    {
      assert ValidAt(d);
      var index := docs[d].IndexOf(target);
      found := index != -1;
    }

    /** One turn of the event loop: a message of a client, or the end of its connection. The invariant
        is kept exactly under its guard, and so is agreement with the files under that. */
    method Dispatch(e: E.Event)
      requires Valid() && Inv(State()) && e.sock < sessions.Length
      modifies this`disk, this`known, this`nextId, locks, sessions, docs, known
      ensures Valid() && State() == E.Step(old(State()), e)
      ensures Inv(State()) <==> old(Guard(State(), e))
      ensures old(EditDisk.Synced(State())) ==> (EditDisk.Synced(State()) <==> old(EditDisk.SyncGuard(State(), e)))
    {
      EditRuns.StepInvIff(State(), e);
      if EditDisk.Synced(State()) {
        EditDisk.SyncStepIff(State(), e);
      }
      match e
      case Write(sock, name, sentence) =>
        var reply := HandleClientWrite(sock, name, sentence);
      case Update(sock, index, content) =>
        var replies := HandleWriteUpdate(sock, index, content);
      case Etirw(sock) =>
        var replies := HandleEtirw(sock);
      case Disconnect(sock) =>
        HandleClientDisconnect(sock);
    }
  }
}
