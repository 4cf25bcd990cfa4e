/** The storage server's collaborative edit engine as a state machine: one step per handler call
    of the single-threaded event loop. A sentence node's address is its `id`. */
module EditEngine {
  import opened Document
  import opened Rebuild
  import opened Wrappers

  datatype Node = Node(id: nat, words: seq<string>, delim: char)

  /** A slot of the active-document table. */
  datatype Slot = Empty | Active(name: string, nodes: seq<Node>, users: int)

  /** A slot of the lock table. */
  datatype Lock = NoLock | Lock(name: string, node: nat, sock: nat)

  datatype Session = Session(doc: nat, node: nat, origCount: nat, edits: seq<Edit>, virt: nat)

  /** `sessions` has an entry for every socket whose session is active; `disk` maps paths to text. */
  datatype Server = Server(
    docs: seq<Slot>, locks: seq<Lock>, sessions: map<nat, Session>, disk: map<string, string>, nextId: nat)

  datatype Event =
    | Write(sock: nat, name: string, sentence: int)
    | Update(sock: nat, index: int, content: string)
    | Etirw(sock: nat)
    | Disconnect(sock: nat)

  datatype Reply = OkLocked | Ok | Error | ErrorLocked | ErrorInvalidSentence

  // ---------- nodes and documents ----------

  function Contents(nodes: seq<Node>): Doc {
    seq(|nodes|, i requires 0 <= i < |nodes| => Sentence(nodes[i].words, nodes[i].delim))
  }

  /** A list of newly allocated nodes. */
  function Fresh(d: Doc, base: nat): seq<Node> {
    seq(|d|, i requires 0 <= i < |d| => Node(base + i, d[i].words, d[i].delim))
  }

  function WordCount(nodes: seq<Node>): nat {
    |WordsOf(Contents(nodes))|
  }

  function FindNode(nodes: seq<Node>, id: nat): (r: int)
    ensures -1 <= r < |nodes|
    ensures 0 <= r ==> nodes[r].id == id && forall j | 0 <= j < r :: nodes[j].id != id
    ensures r == -1 ==> forall j | 0 <= j < |nodes| :: nodes[j].id != id
  {
    if nodes == [] then -1
    else if nodes[0].id == id then 0
    else var r := FindNode(nodes[1..], id); if r == -1 then -1 else r + 1
  }

  // ---------- the tables ----------

  predicate Holds(slot: Slot, name: string) {
    slot.Active? && slot.name == name
  }

  /** The first index from `i` on whose slot is active under `name`, or -1. */
  function FindDoc(docs: seq<Slot>, name: string, i: nat): (r: int)
    requires i <= |docs|
    ensures -1 <= r < |docs| && (0 <= r ==> i <= r && Holds(docs[r], name))
    ensures forall j | i <= j < (if r == -1 then |docs| else r) :: !Holds(docs[j], name)
    decreases |docs| - i
  {
    if i == |docs| then -1 else if Holds(docs[i], name) then i else FindDoc(docs, name, i + 1)
  }

  function FindEmpty(docs: seq<Slot>, i: nat): (r: int)
    requires i <= |docs|
    ensures -1 <= r < |docs| && (0 <= r ==> i <= r && docs[r].Empty?)
    ensures forall j | i <= j < (if r == -1 then |docs| else r) :: !docs[j].Empty?
    decreases |docs| - i
  {
    if i == |docs| then -1 else if docs[i].Empty? then i else FindEmpty(docs, i + 1)
  }

  predicate Locks(lock: Lock, name: string, node: nat) {
    lock.Lock? && lock.name == name && lock.node == node
  }

  function FindLock(locks: seq<Lock>, name: string, node: nat, i: nat): (r: int)
    requires i <= |locks|
    ensures -1 <= r < |locks| && (0 <= r ==> i <= r && Locks(locks[r], name, node))
    ensures forall j | i <= j < (if r == -1 then |locks| else r) :: !Locks(locks[j], name, node)
    decreases |locks| - i
  {
    if i == |locks| then -1 else if Locks(locks[i], name, node) then i else FindLock(locks, name, node, i + 1)
  }

  function FindFreeLock(locks: seq<Lock>, i: nat): (r: int)
    requires i <= |locks|
    ensures -1 <= r < |locks| && (0 <= r ==> i <= r && locks[r].NoLock?)
    ensures forall j | i <= j < (if r == -1 then |locks| else r) :: !locks[j].NoLock?
    decreases |locks| - i
  {
    if i == |locks| then -1 else if locks[i].NoLock? then i else FindFreeLock(locks, i + 1)
  }

  function CreateLock(locks: seq<Lock>, name: string, node: nat, sock: nat): seq<Lock> {
    var i := FindFreeLock(locks, 0);
    if FindLock(locks, name, node, 0) != -1 || i == -1 then locks else locks[i := Lock(name, node, sock)]
  }

  function ReleaseLock(locks: seq<Lock>, name: string, node: nat): seq<Lock> {
    var i := FindLock(locks, name, node, 0);
    if i == -1 then locks else locks[i := NoLock]
  }

  // ---------- the handlers ----------

  /** The server and the slot of the document, or -1. */
  function FindOrLoad(s: Server, name: string): (r: (Server, int))
    ensures -1 <= r.1 < |r.0.docs| && (r.1 >= 0 ==> Holds(r.0.docs[r.1], name))
  {
    var found := FindDoc(s.docs, name, 0);
    var empty := FindEmpty(s.docs, 0);
    if found != -1 then (s, found)
    else if empty == -1 || name !in s.disk then (s, -1)
    else
      var d := Parse(s.disk[name]);
      (s.(docs := s.docs[empty := Active(name, Fresh(d, s.nextId), 0)], nextId := s.nextId + |d|), empty)
  }

  function Grant(s: Server, sock: nat, d: nat, node: Node): Server
    requires d < |s.docs| && s.docs[d].Active?
  {
    var slot := s.docs[d];
    s.(locks := CreateLock(s.locks, slot.name, node.id, sock),
       docs := s.docs[d := slot.(users := slot.users + 1)],
       sessions := s.sessions[sock := Session(d, node.id, |node.words|, [], 0)])
  }

  function HandleWrite(s: Server, sock: nat, name: string, sentence: int): (Server, Reply) {
    var (s1, d) := FindOrLoad(s, name);
    if d == -1 then (s1, Error)
    else
      var nodes := s1.docs[d].nodes;
      var i := if sentence < 0 then 0 else sentence;
      if i >= |nodes| then (s1, ErrorInvalidSentence)
      else if FindLock(s1.locks, name, nodes[i].id, 0) != -1 then (s1, ErrorLocked)
      else (Grant(s1, sock, d, nodes[i]), OkLocked)
  }

  /** The node a session points at, when it is in the session's document. The C code follows the
      pointer without looking; `TargetIsAlwaysFound` shows that it is never dangling. */
  function Target(s: Server, session: Session): Option<Node> {
    if session.doc < |s.docs| && s.docs[session.doc].Active? then
      var nodes := s.docs[session.doc].nodes;
      var p := FindNode(nodes, session.node);
      if p == -1 then None else Some(nodes[p])
    else None
  }

  function Record(session: Session, index: int, content: string): Session {
    session.(edits := session.edits + [Edit(index, content)], virt := session.virt + CountWords(content))
  }

  function HandleUpdate(s: Server, sock: nat, index: int, content: string): (Server, seq<Reply>) {
    if sock !in s.sessions then (s, [])
    else
      var session := s.sessions[sock];
      match Target(s, session)
      case None => (s, [Error])
      case Some(node) =>
        if index < 0 || index > |node.words| + session.virt then (s, [Error])
        else (s.(sessions := s.sessions[sock := Record(session, index, content)]), [Ok])
  }

  function ReleaseDoc(docs: seq<Slot>, d: nat): seq<Slot> {
    if d < |docs| && docs[d].Active? then
      var slot := docs[d].(users := docs[d].users - 1);
      docs[d := if slot.users <= 0 then Empty else slot]
    else docs
  }

  /** Release the lock, end the session, give up the document. */
  function Close(s: Server, sock: nat): Server
    requires sock in s.sessions
  {
    var session := s.sessions[sock];
    var d := session.doc;
    s.(locks := if d < |s.docs| && s.docs[d].Active?
                then ReleaseLock(s.locks, s.docs[d].name, session.node) else s.locks,
       sessions := s.sessions - {sock},
       docs := ReleaseDoc(s.docs, d))
  }

  /** The first edit moved by the change of the sentence's word count since the lock. */
  function Adjust(edits: seq<Edit>, offset: int): seq<Edit> {
    if edits == [] || offset == 0 then edits
    else edits[0 := edits[0].(index := edits[0].index + offset)]
  }

  /** The list after the commit: the node at `p` replaced by the run. Without a run, the C code
      stores a null link and the rest of the list is cut off. */
  function Relink(nodes: seq<Node>, p: nat, run: seq<Node>): seq<Node>
    requires p < |nodes|
  {
    if run == [] then nodes[..p] else nodes[..p] + run + nodes[p + 1..]
  }

  function BackupName(name: string): string {
    name + ".bak"
  }

  /** Rename the file to its backup, then write the new text. */
  function SaveFile(disk: map<string, string>, name: string, text: string): map<string, string> {
    var renamed := if name in disk then (disk - {name})[BackupName(name) := disk[name]] else disk;
    renamed[name := text]
  }

  /** The token array of a session about to commit. */
  function Replay(node: Node, session: Session): Option<seq<string>> {
    ApplyEdits(node.words, Adjust(session.edits, |node.words| - session.origCount))
  }

  /** The server with the session's sentence rebuilt in memory, before anything is written. */
  function Rebuilt(s: Server, d: nat, p: nat, toks: seq<string>): Server
    requires d < |s.docs| && s.docs[d].Active? && p < |s.docs[d].nodes|
  {
    var slot := s.docs[d];
    var run := Fresh(Split(toks, [], slot.nodes[p].delim), s.nextId);
    s.(docs := s.docs[d := slot.(nodes := Relink(slot.nodes, p, run))], nextId := s.nextId + |run|)
  }

  /** Memory after a commit's rebuild and, when the word counts agree, the file. */
  function Written(s: Server, d: nat, before: nat, virt: nat): Server
    requires d < |s.docs| && s.docs[d].Active?
  {
    var slot := s.docs[d];
    if WordCount(slot.nodes) - before != virt then s
    else s.(disk := SaveFile(s.disk, slot.name, Flush(Contents(slot.nodes))))
  }

  /** The work of ETIRW on the sentence at `p`, with the replies it sends on the way. */
  function Commit(s: Server, d: nat, p: nat, replayed: Option<seq<string>>, virt: nat): (r: (Server, seq<Reply>))
    requires d < |s.docs| && s.docs[d].Active? && p < |s.docs[d].nodes|
    ensures r.0.sessions == s.sessions
  {
    match replayed
    case None => (s, [Error])
    case Some(toks) =>
      var s1, before := Rebuilt(s, d, p, toks), WordCount(s.docs[d].nodes);
      (Written(s1, d, before, virt),
       if WordCount(s1.docs[d].nodes) - before != virt then [ErrorInvalidSentence] else [])
  }

  function HandleEtirw(s: Server, sock: nat): (Server, seq<Reply>) {
    if sock !in s.sessions then (s, [])
    else
      var session := s.sessions[sock];
      if session.doc >= |s.docs| || s.docs[session.doc].Empty? then (s, [])
      else
        var nodes := s.docs[session.doc].nodes;
        var p := FindNode(nodes, session.node);
        if p == -1 then (s, [Error])
        else
          var (s1, replies) := Commit(s, session.doc, p, Replay(nodes[p], session), session.virt);
          (Close(s1, sock), replies + [Ok])
  }

  function HandleDisconnect(s: Server, sock: nat): Server {
    if sock in s.sessions then Close(s, sock) else s
  }

  function Step(s: Server, e: Event): Server {
    match e
    case Write(sock, name, sentence) => HandleWrite(s, sock, name, sentence).0
    case Update(sock, index, content) => HandleUpdate(s, sock, index, content).0
    case Etirw(sock) => HandleEtirw(s, sock).0
    case Disconnect(sock) => HandleDisconnect(s, sock)
  }

  function Run(s: Server, es: seq<Event>): Server
    decreases es
  {
    if es == [] then s else Run(Step(s, es[0]), es[1..])
  }

  const MAX_FILES_IN_SYSTEM := 1024
  const MAX_LOCKS := 100

  function Init(disk: map<string, string>): Server {
    Server(seq(MAX_FILES_IN_SYSTEM, _ => Empty), seq(MAX_LOCKS, _ => NoLock), map[], disk, 0)
  }
}
