/** When the documents in memory agree with their files, exactly. */
module EditDisk {
  import opened Text
  import opened Document
  import opened Rebuild
  import opened EditEngine
  import opened EditInvariant
  import opened EditRuns

  // ---------- agreement ----------

  /** Memory and disk agree on one document, up to the closing sentence the parser adds. */
  ghost predicate OnDisk(slot: Slot, disk: map<string, string>) {
    slot.Active? ==>
      && WellFormed(Contents(slot.nodes))
      && slot.name in disk
      && Parse(disk[slot.name]) == Closed(Contents(slot.nodes))
  }

  ghost predicate DocsOnDisk(docs: seq<Slot>, disk: map<string, string>) {
    forall d {:trigger OnDisk(docs[d], disk)} | 0 <= d < |docs| :: OnDisk(docs[d], disk)
  }

  ghost predicate Synced(s: Server) {
    Inv(s) && DocsOnDisk(s.docs, s.disk)
  }

  // ---------- the count check ----------

  /** The words after the sentence are cut off by a commit without tokens. */
  lemma CutCount(nodes: seq<Node>, p: nat)
    requires p < |nodes|
    ensures WordCount(nodes[..p]) == WordCount(nodes) - |nodes[p].words| - WordCount(nodes[p + 1..])
  {
    RelinkWords(nodes, p, [nodes[p]]);
  }

  /** Every queued token starts with text or has none, and a commit that leaves no token has no words
      after its sentence to cut off. */
  ghost predicate Acceptable(s: Server, sock: nat)
    requires Live(s, sock)
  {
    var edits, nodes := s.sessions[sock].edits, SlotOf(s, sock).nodes;
    && AllCountable(EditTokens(edits))
    && (NodeOf(s, sock).words == [] && EditTokens(edits) == [] ==> WordCount(nodes[Position(s, sock) + 1..]) == 0)
  }

  lemma CountsAgreeIff(s: Server, sock: nat)
    requires Inv(s) && Live(s, sock)
    ensures CountsAgree(s, sock) <==> Acceptable(s, sock)
  {
    var nodes, p, d := SlotOf(s, sock).nodes, Position(s, sock), NewSentences(s, sock);
    var edits := s.sessions[sock].edits;
    SessionsAreLive(s, sock);
    NewSentencesFacts(s, sock);
    NoTokensIff(nodes[p].words, edits);
    if d == [] {
      CutCount(nodes, p);
    } else {
      NodeWords(nodes, p);
      CountersAgreeIffCountable(nodes[p].words, edits, nodes[p].delim);
      FreshContents(d, s.nextId);
      RelinkWords(nodes, p, Fresh(d, s.nextId));
    }
  }

  /** In every reachable state, ETIRW is accepted exactly when every queued token starts with text or
      has none, and a commit that leaves no token has no words after its sentence to cut off. */
  lemma CommitAcceptedIff(s: Server, sock: nat)
    requires Inv(s) && sock in s.sessions
    ensures Live(s, sock)
    ensures HandleEtirw(s, sock).1 == if Acceptable(s, sock) then [Ok] else [ErrorInvalidSentence, Ok]
  {
    SessionsAreLive(s, sock);
    CountsAgreeIff(s, sock);
    EtirwIs(s, sock);
  }

  // ---------- the committed document ----------

  ghost predicate AllPlain(toks: seq<string>) {
    forall t | t in toks :: PlainHead(t)
  }

  lemma WellFormedWords(nodes: seq<Node>, p: nat)
    requires WellFormed(Contents(nodes)) && p < |nodes|
    ensures IsWords(nodes[p].words)
  {
    assert Contents(nodes)[p] == Sentence(nodes[p].words, nodes[p].delim);
  }

  lemma WordIsToken(w: string)
    requires IsWord(w)
    ensures IsToken(w) && PlainHead(w)
  {
    MarksIffDelim(w);
  }

  lemma ReplayedAreTokens(words: seq<string>, edits: seq<Edit>)
    requires IsWords(words) && ApplyEdits(words, edits).Some?
    ensures var toks := ApplyEdits(words, edits).value;
            (forall t | t in toks :: IsToken(t)) && (AllPlain(toks) <==> AllPlain(EditTokens(edits)))
  {
    var toks := ApplyEdits(words, edits).value;
    ReplayedTokens(words, edits);
    EditTokensAreTokens(edits);
    ApplyEditsTokens(words, edits);
    forall t | t in toks
      ensures IsToken(t) && (t in words ==> PlainHead(t))
    {
      if t in words { WordIsToken(t); }
    }
    forall t | t in EditTokens(edits)
      ensures t in toks
    {
      assert t in multiset(EditTokens(edits)) && t in multiset(toks);
    }
  }

  /** Replacing one sentence by a split under its own delimiter keeps the document well-formed. */
  lemma RelinkForm(nodes: seq<Node>, p: nat, run: seq<Node>)
    requires WellFormed(Contents(nodes)) && p < |nodes| && SplitForm(Contents(run), nodes[p].delim)
    ensures WellFormed(Contents(Relink(nodes, p, run)))
  {
    var d, d' := Contents(nodes), Contents(Relink(nodes, p, run));
    forall i | 0 <= i < |d'|
      ensures IsWords(d'[i].words) && (IsDelim(d'[i].delim) || (i == |d'| - 1 && d'[i].delim == ' '))
    {
      if i < p {
        assert d'[i] == d[i];
      } else if i < p + |run| {
        assert d'[i] == Contents(run)[i - p] && d[p].delim == nodes[p].delim;
      } else {
        assert d'[i] == d[i - |run| + 1];
      }
    }
  }

  lemma RunWords(nodes: seq<Node>, p: nat, d: Doc, base: nat)
    requires p < |nodes| && WellFormed(Contents(Relink(nodes, p, Fresh(d, base))))
    ensures forall i | 0 <= i < |d| :: IsWords(d[i].words)
  {
    var nodes' := Relink(nodes, p, Fresh(d, base));
    forall i | 0 <= i < |d|
      ensures IsWords(d[i].words)
    {
      assert Contents(nodes')[p + i] == d[i];
    }
  }

  /** The document after the surgery is well-formed exactly when the text kept of every new token is
      plain. */
  lemma RelinkFormIff(nodes: seq<Node>, p: nat, edits: seq<Edit>, base: nat)
    requires p < |nodes| && WellFormed(Contents(nodes)) && ApplyEdits(nodes[p].words, edits).Some?
    ensures var d := Split(ApplyEdits(nodes[p].words, edits).value, [], nodes[p].delim);
            WellFormed(Contents(Relink(nodes, p, Fresh(d, base)))) <==> AllPlain(EditTokens(edits))
  {
    var toks := ApplyEdits(nodes[p].words, edits).value;
    var d := Split(toks, [], nodes[p].delim);
    var run := Fresh(d, base);
    WellFormedWords(nodes, p);
    ReplayedAreTokens(nodes[p].words, edits);
    FreshContents(d, base);
    if AllPlain(toks) {
      SplitIsWellFormed(toks, [], nodes[p].delim);
      RelinkForm(nodes, p, run);
    }
    if WellFormed(Contents(Relink(nodes, p, run))) {
      RunWords(nodes, p, d, base);
      HeadsArePlain(toks, nodes[p].delim);
    }
  }

  // ---------- a rejected commit ----------

  /** Two documents that differ in one place and read back alike do not differ there. */
  lemma ClosedSame(a: Doc, x: Sentence, d: Doc, c: Doc)
    requires RunShaped(d, x.delim) && d != [] && (IsDelim(x.delim) || (x.delim == ' ' && c == []))
    requires Closed(a + d + c) == Closed(a + [x] + c)
    ensures d == [x]
  {
    var b, b' := a + d + c, a + [x] + c;
    if c != [] {
      assert b[|b| - 1] == c[|c| - 1] == b'[|b'| - 1];
      SameMiddle(a, d, [x], c);
    } else {
      assert b[|b| - 1] == d[|d| - 1] && b'[|b'| - 1] == x;
      assert d[|d| - 1].delim == ' ' <==> x.delim == ' ';
      SameMiddle(a, d, [x], c);
    }
  }

  lemma SameMiddle(a: Doc, d: Doc, d': Doc, c: Doc)
    requires a + d + c == a + d' + c || a + d + c + [Sentence([], ' ')] == a + d' + c + [Sentence([], ' ')]
    ensures d == d'
  {
    var b, b' := a + d + c, a + d' + c;
    assert b == (b + [Sentence([], ' ')])[..|b|] && b' == (b' + [Sentence([], ' ')])[..|b'|];
    assert |d| == |d'| && d == b[|a|..|a| + |d|] && d' == b'[|a|..|a| + |d|];
  }

  /** The file still holds the sentence as it was: the new document agrees with it exactly when the
      rebuild changed nothing. */
  lemma RejectedAgreesIff(s: Server, sock: nat)
    requires Inv(s) && Live(s, sock) && !Acceptable(s, sock) && OnDisk(SlotOf(s, sock), s.disk)
    ensures OnDisk(SlotOf(s, sock).(nodes := NewNodes(s, sock)), s.disk)
       <==> Redundant(NodeOf(s, sock).words, s.sessions[sock].edits, NodeOf(s, sock).delim)
  {
    var nodes, p, d := SlotOf(s, sock).nodes, Position(s, sock), NewSentences(s, sock);
    NewSentencesFacts(s, sock);
    if d == [] {
      CutCount(nodes, p);
      WordsOfClosed(Contents(nodes));
      WordsOfClosed(Contents(nodes[..p]));
    } else {
      assert Contents(nodes)[p] == Sentence(nodes[p].words, nodes[p].delim);
      NodeWords(nodes, p);
      SplitSameIff(nodes[p].words, s.sessions[sock].edits, nodes[p].delim);
      SameDocIff(nodes, p, d, s.nextId);
    }
  }

  lemma SameDocIff(nodes: seq<Node>, p: nat, d: Doc, base: nat)
    requires p < |nodes| && WellFormed(Contents(nodes)) && d != [] && RunShaped(d, nodes[p].delim)
    ensures var nodes' := Relink(nodes, p, Fresh(d, base));
            WellFormed(Contents(nodes')) && Closed(Contents(nodes)) == Closed(Contents(nodes'))
            <==> d == [Sentence(nodes[p].words, nodes[p].delim)]
  {
    var nodes', x := Relink(nodes, p, Fresh(d, base)), Sentence(nodes[p].words, nodes[p].delim);
    assert Contents(nodes)[p] == x;
    FreshContents(d, base);
    RelinkContents(nodes, p, Fresh(d, base));
    if Closed(Contents(nodes)) == Closed(Contents(nodes')) {
      ClosedSame(Contents(nodes[..p]), x, d, Contents(nodes[p + 1..]));
    }
  }

  // ---------- exactly when a commit keeps agreement ----------

  /** What was queued is harmless for the document's own file: accepted and plain, or redundant. */
  ghost predicate Harmless(s: Server, sock: nat)
    requires Live(s, sock)
  {
    var edits := s.sessions[sock].edits;
    || (Acceptable(s, sock) && AllPlain(EditTokens(edits)))
    || Redundant(NodeOf(s, sock).words, edits, NodeOf(s, sock).delim)
  }

  /** After a commit, accepted or rejected, the file parses to the document in memory exactly when what
      was queued is harmless. */
  lemma DiskAgreesIff(s: Server, sock: nat)
    requires Synced(s) && sock in s.sessions
    ensures Live(s, sock)
    ensures OnDisk(Committed(s, sock).docs[s.sessions[sock].doc], Committed(s, sock).disk) <==> Harmless(s, sock)
  {
    SessionsAreLive(s, sock);
    CountsAgreeIff(s, sock);
    NewSentencesFacts(s, sock);
    var slot, edits := SlotOf(s, sock), s.sessions[sock].edits;
    assert OnDisk(slot, s.disk);
    if Acceptable(s, sock) {
      RelinkFormIff(slot.nodes, Position(s, sock), edits, s.nextId);
      ParseFlushIff(Contents(NewNodes(s, sock)));
      RedundantIsPlain(NodeOf(s, sock).words, edits, NodeOf(s, sock).delim);
    } else {
      RejectedAgreesIff(s, sock);
    }
  }

  lemma RedundantIsPlain(words: seq<string>, edits: seq<Edit>, delim: char)
    ensures Redundant(words, edits, delim) ==> AllPlain(EditTokens(edits))
  {
    if Redundant(words, edits, delim) {
      KeptMark(EditTokens(edits)[0], delim);
    }
  }

  lemma BackupDiffers(name: string)
    ensures BackupName(name) != name
  {
  }

  /** Saving a file touches the file and its backup, and keeps the previous text in the backup. */
  lemma SaveFileFrame(disk: map<string, string>, name: string, text: string)
    ensures var disk' := SaveFile(disk, name, text);
            && name in disk' && disk'[name] == text
            && (name in disk ==> BackupName(name) in disk' && disk'[BackupName(name)] == disk[name])
            && forall f | f != name && f != BackupName(name) ::
                 (f in disk' <==> f in disk) && (f in disk ==> disk'[f] == disk[f])
  {
    BackupDiffers(name);
  }

  /** The document in slot `a` is the backup file of the session's document. */
  ghost predicate IsBackupOf(s: Server, sock: nat, a: nat)
    requires Live(s, sock)
  {
    a < |s.docs| && Holds(s.docs[a], BackupName(SlotOf(s, sock).name))
  }

  /** The two documents read alike. */
  ghost predicate SameText(slot: Slot, slot': Slot) {
    slot.Active? && slot'.Active? && Closed(Contents(slot.nodes)) == Closed(Contents(slot'.nodes))
  }

  /** A commit keeps every other open document in agreement with its file, unless it overwrites that
      file with its own backup and the two documents differ. */
  lemma OtherAgreesIff(s: Server, sock: nat, a: nat)
    requires Synced(s) && sock in s.sessions && a < |s.docs| && a != s.sessions[sock].doc
    ensures Live(s, sock)
    ensures Committed(s, sock).docs[a] == s.docs[a]
    ensures OnDisk(s.docs[a], Committed(s, sock).disk)
       <==> (Acceptable(s, sock) && IsBackupOf(s, sock, a) ==> SameText(s.docs[a], SlotOf(s, sock)))
  {
    SessionsAreLive(s, sock);
    CountsAgreeIff(s, sock);
    var slot := SlotOf(s, sock);
    assert OnDisk(slot, s.disk) && OnDisk(s.docs[a], s.disk);
    SaveFileFrame(s.disk, slot.name, Flush(Contents(NewNodes(s, sock))));
    BackupDiffers(slot.name);
    if s.docs[a].Active? {
      assert s.docs[a].name != slot.name;
    }
  }

  // ---------- the guard, and runs ----------

  ghost predicate Shared(s: Server, sock: nat) {
    exists k :: k in s.sessions && k != sock && sock in s.sessions && s.sessions[k].doc == s.sessions[sock].doc
  }

  /** What is queued is harmless, if somebody else still has the document; and an accepted commit finds
      its backup file not open as a different document. */
  ghost predicate CommitSyncs(s: Server, sock: nat)
    requires Live(s, sock)
  {
    && (Shared(s, sock) ==> Harmless(s, sock))
    && (Acceptable(s, sock) ==>
          forall a {:trigger IsBackupOf(s, sock, a)} | 0 <= a < |s.docs| && IsBackupOf(s, sock, a) ::
            SameText(s.docs[a], SlotOf(s, sock)))
  }

  ghost predicate SyncGuard(s: Server, e: Event) {
    Guard(s, e) && (e.Etirw? && Live(s, e.sock) ==> CommitSyncs(s, e.sock))
  }

  ghost predicate SyncGuarded(s: Server, es: seq<Event>)
    decreases es
  {
    es == [] || (SyncGuard(s, es[0]) && SyncGuarded(Step(s, es[0]), es[1..]))
  }

  lemma InitSynced(disk: map<string, string>)
    ensures Synced(Init(disk))
  {
    InitInv(disk);
  }

  lemma LoadSynced(s: Server, name: string)
    requires Synced(s)
    ensures DocsOnDisk(FindOrLoad(s, name).0.docs, s.disk)
  {
    var found, empty := FindDoc(s.docs, name, 0), FindEmpty(s.docs, 0);
    if found == -1 && empty != -1 && name in s.disk {
      ParseIsNormal(s.disk[name]);
      FreshContents(Parse(s.disk[name]), s.nextId);
    }
  }

  lemma WriteSynced(s: Server, sock: nat, name: string, sentence: int)
    requires Synced(s)
    ensures var s1 := HandleWrite(s, sock, name, sentence).0; s1.disk == s.disk && DocsOnDisk(s1.docs, s1.disk)
  {
    LoadSynced(s, name);
    WriteCases(s, sock, name, sentence);
    var (s1, d) := FindOrLoad(s, name);
    assert d != -1 ==> OnDisk(s1.docs[d], s.disk);
  }

  lemma CloseSynced(s: Server, sock: nat)
    requires DocsOnDisk(s.docs, s.disk) && sock in s.sessions
    ensures DocsOnDisk(Close(s, sock).docs, Close(s, sock).disk)
  {
    var d := s.sessions[sock].doc;
    assert d < |s.docs| ==> OnDisk(s.docs[d], s.disk);
  }

  /** The slot of a session that ends is freed exactly when nobody else has the document. */
  lemma FreedIff(s: Server, sock: nat)
    requires InvClosing(s, {sock}) && sock in s.sessions
    ensures InDoc(s.docs, s.sessions[sock])
    ensures Close(s, sock).docs[s.sessions[sock].doc].Empty? <==> !Shared(s, sock)
  {
    assert InDoc(s.docs, s.sessions[sock]);
    CloseUsers(s.docs, s.sessions, sock);
    var left := Editing(s.sessions - {sock}, s.sessions[sock].doc);
    if k :| k in left {
      assert Shared(s, sock);
    }
    if Shared(s, sock) {
      var k :| k in s.sessions && k != sock && s.sessions[k].doc == s.sessions[sock].doc;
      assert k in left;
    }
  }

  /** The documents after ETIRW: the session's own is given up or relinked, all others are as they were. */
  lemma EtirwSlots(s: Server, sock: nat)
    requires Inv(s) && sock in s.sessions && Guard(s, Etirw(sock))
    ensures Live(s, sock)
    ensures var s1, d := HandleEtirw(s, sock).0, s.sessions[sock].doc;
            && |s1.docs| == |s.docs| && s1.disk == Committed(s, sock).disk
            && (forall a | 0 <= a < |s.docs| && a != d :: s1.docs[a] == s.docs[a])
            && (s1.docs[d].Empty? <==> !Shared(s, sock))
            && (s1.docs[d].Active? ==> s1.docs[d].name == s.docs[d].name && s1.docs[d].nodes == NewNodes(s, sock))
  {
    SessionsAreLive(s, sock);
    EtirwIs(s, sock);
    CommittedInv(s, sock);
    CloseDocs(Committed(s, sock), sock);
    FreedIff(Committed(s, sock), sock);
    assert Shared(Committed(s, sock), sock) <==> Shared(s, sock);
  }

  /** The session's own document after ETIRW: given up, or in agreement with its file. */
  lemma OwnAgreesIff(s: Server, sock: nat)
    requires Synced(s) && sock in s.sessions && Guard(s, Etirw(sock))
    ensures Live(s, sock) && |HandleEtirw(s, sock).0.docs| == |s.docs|
    ensures var s1 := HandleEtirw(s, sock).0;
            OnDisk(s1.docs[s.sessions[sock].doc], s1.disk) <==> (Shared(s, sock) ==> Harmless(s, sock))
  {
    EtirwSlots(s, sock);
    DiskAgreesIff(s, sock);
  }

  /** Any other document after ETIRW. */
  lemma OtherSlotIff(s: Server, sock: nat, a: nat)
    requires Synced(s) && sock in s.sessions && a < |s.docs| && a != s.sessions[sock].doc
    ensures Live(s, sock) && |HandleEtirw(s, sock).0.docs| == |s.docs|
    ensures var s1 := HandleEtirw(s, sock).0;
            OnDisk(s1.docs[a], s1.disk)
            <==> (Acceptable(s, sock) && IsBackupOf(s, sock, a) ==> SameText(s.docs[a], SlotOf(s, sock)))
  {
    SessionsAreLive(s, sock);
    EtirwIs(s, sock);
    CloseDocs(Committed(s, sock), sock);
    OtherAgreesIff(s, sock, a);
  }

  /** A guarded ETIRW keeps all agreement exactly under its condition. */
  lemma EtirwSyncedIff(s: Server, sock: nat)
    requires Synced(s) && sock in s.sessions && Guard(s, Etirw(sock))
    ensures Live(s, sock)
    ensures var s1 := HandleEtirw(s, sock).0; DocsOnDisk(s1.docs, s1.disk) <==> CommitSyncs(s, sock)
  {
    SessionsAreLive(s, sock);
    var s1, d := HandleEtirw(s, sock).0, s.sessions[sock].doc;
    OwnAgreesIff(s, sock);
    BackupDiffers(SlotOf(s, sock).name);
    assert !IsBackupOf(s, sock, d);
    forall a | 0 <= a < |s.docs| && a != d
      ensures OnDisk(s1.docs[a], s1.disk)
         <==> (Acceptable(s, sock) && IsBackupOf(s, sock, a) ==> SameText(s.docs[a], SlotOf(s, sock)))
    {
      OtherSlotIff(s, sock, a);
    }
    if DocsOnDisk(s1.docs, s1.disk) {
      assert OnDisk(s1.docs[d], s1.disk);
      assert forall a | 0 <= a < |s.docs| :: OnDisk(s1.docs[a], s1.disk);
    }
  }

  /** The guard is exact: a step keeps all documents in agreement with their files, and the invariant,
      exactly when its guard holds. */
  lemma SyncStepIff(s: Server, e: Event)
    requires Synced(s)
    ensures Synced(Step(s, e)) <==> SyncGuard(s, e)
  {
    StepInvIff(s, e);
    if Guard(s, e) {
      match e
      case Write(sock, name, sentence) => WriteSynced(s, sock, name, sentence);
      case Update(_, _, _) =>
      case Etirw(sock) =>
        if sock in s.sessions {
          EtirwSyncedIff(s, sock);
        }
      case Disconnect(sock) =>
        if sock in s.sessions {
          CloseSynced(s, sock);
        }
    }
  }

  lemma {:induction false} RunSynced(s: Server, es: seq<Event>)
    requires Synced(s) && SyncGuarded(s, es)
    ensures Synced(Run(s, es)) && Guarded(s, es)
    decreases es
  {
    if es != [] {
      SyncStepIff(s, es[0]);
      RunSynced(Step(s, es[0]), es[1..]);
    }
  }

  /** In every guarded run, a file on disk parses to its active document in memory, up to the
      closing sentence, and no file is loaded twice. */
  lemma MemoryAndDiskAgree(disk: map<string, string>, es: seq<Event>, d: nat)
    requires SyncGuarded(Init(disk), es)
    requires var s := Run(Init(disk), es); d < |s.docs| && s.docs[d].Active?
    ensures var s := Run(Init(disk), es);
            && s.docs[d].name in s.disk
            && Parse(s.disk[s.docs[d].name]) == Closed(Contents(s.docs[d].nodes))
            && WellFormed(Contents(s.docs[d].nodes))
            && forall e | 0 <= e < |s.docs| && Holds(s.docs[e], s.docs[d].name) :: e == d
  {
    InitSynced(disk);
    RunSynced(Init(disk), es);
    var s := Run(Init(disk), es);
    assert OnDisk(s.docs[d], s.disk);
    forall e | 0 <= e < |s.docs| && Holds(s.docs[e], s.docs[d].name)
      ensures e == d
    {
      assert s.docs[e].name == s.docs[d].name;
    }
  }

  /** A granted WRITE holds the sentence it asked for: the one with that index in the file. */
  lemma WriteLocksNth(s: Server, sock: nat, name: string, sentence: int)
    requires Synced(s) && Guard(s, Write(sock, name, sentence)) && Grants(s, name, sentence)
    ensures var s1, i := HandleWrite(s, sock, name, sentence).0, if sentence < 0 then 0 else sentence;
            && HandleWrite(s, sock, name, sentence).1 == OkLocked && Live(s1, sock)
            && name in s.disk && i < |Parse(s.disk[name])|
            && Parse(s.disk[name])[i] == Sentence(NodeOf(s1, sock).words, NodeOf(s1, sock).delim)
  {
    WriteInv(s, sock, name, sentence);
    LoadInv(s, name);
    LoadSynced(s, name);
    WriteCases(s, sock, name, sentence);
    var (s0, d) := FindOrLoad(s, name);
    var i := if sentence < 0 then 0 else sentence;
    assert OnDisk(s0.docs[d], s0.disk) && At(s0.docs, d, i);
    SessionsAreLive(HandleWrite(s, sock, name, sentence).0, sock);
    FoundNode(s0.docs, s0.nextId, d, i);
    assert Contents(s0.docs[d].nodes)[i] == Sentence(s0.docs[d].nodes[i].words, s0.docs[d].nodes[i].delim);
  }
}
