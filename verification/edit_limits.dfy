/** Exactly when the edit engine meets its promises, and inputs on which it does not. */
module EditLimits {
  import opened Text
  import opened Document
  import opened Rebuild
  import opened Wrappers
  import opened EditEngine
  import opened EditInvariant
  import opened EditRuns
  import opened EditDisk

  // ---------- granting locks ----------

  /** Two connections ask for the same sentence in turn: the second is refused exactly when a lock
      slot was free for the first; otherwise both are granted it. */
  lemma SecondWriterRefusedIff(s: Server, k: nat, l: nat, name: string, sentence: int)
    requires HandleWrite(s, k, name, sentence).1 == OkLocked
    ensures HandleWrite(HandleWrite(s, k, name, sentence).0, l, name, sentence).1
         == if FindFreeLock(FindOrLoad(s, name).0.locks, 0) != -1 then ErrorLocked else OkLocked
  {
    var (s1, d) := FindOrLoad(s, name);
    var i := if sentence < 0 then 0 else sentence;
    var s2 := HandleWrite(s, k, name, sentence).0;
    var f := FindFreeLock(s1.locks, 0);
    LoadedAgain(s, name);
    FindDocSame(s1.docs, s2.docs, name, 0);
    if f != -1 {
      assert Locks(s2.locks[f], name, s2.docs[d].nodes[i].id);
    }
  }

  lemma LoadedAgain(s: Server, name: string)
    requires FindOrLoad(s, name).1 != -1
    ensures FindDoc(FindOrLoad(s, name).0.docs, name, 0) == FindOrLoad(s, name).1
  {
    var (s1, d) := FindOrLoad(s, name);
    if FindDoc(s.docs, name, 0) == -1 {
      assert forall j | 0 <= j < |s1.docs| && j != d :: !Holds(s1.docs[j], name);
    }
  }

  lemma {:induction false} FindDocSame(docs: seq<Slot>, docs': seq<Slot>, name: string, i: nat)
    requires |docs| == |docs'| && i <= |docs|
    requires forall j | 0 <= j < |docs| :: Holds(docs[j], name) <==> Holds(docs'[j], name)
    ensures FindDoc(docs, name, i) == FindDoc(docs', name, i)
    decreases |docs| - i
  {
    if i < |docs| {
      FindDocSame(docs, docs', name, i + 1);
    }
  }

  // ---------- inputs on which the promises fail ----------

  lemma TwoSentences()
    ensures Parse("a.b") == [Sentence(["a"], '.'), Sentence(["b"], ' ')]
  {
    var p1 := Parsing([], [], "a");
    var p2 := Parsing([Sentence(["a"], '.')], [], "");
    var p3 := Parsing([Sentence(["a"], '.')], [], "b");
    assert p1.Words() == ["a"] && p3.Words() == ["b"];
    assert Feed(START, 'a') == p1 && Feed(p1, '.') == p2 && Feed(p2, 'b') == p3;
    assert "a.b"[1..] == ".b" && ".b"[1..] == "b" && "b"[1..] == "";
    assert FeedAll(p2, "b") == FeedAll(p3, "") == p3;
    assert FeedAll(p1, ".b") == FeedAll(p2, "b");
  }

  lemma OneSentence()
    ensures Split(["a.b"], [], ' ') == [Sentence(["a"], '.')]
  {
    var t := "a.b";
    assert t[1..] == ".b" && ".b"[1..] == "b";
    assert Head(".b") == "" && Head(t) == "a";
    var u := ".b";
    assert u[0] == '.' && IsPunct('.') && IsDelim(u[0]);
    assert LeadingDelims(u[1..]) == "" && LeadingDelims(u) == ".";
    assert t[1..] == t[|Head(t)|..] && Marks(t) == "." && "."[1..] == "";
    assert WithHead([], t) == [] + ["a"] == ["a"] && EmptySentences(Marks(t)[1..]) == [];
    assert Closing([], t) == [Sentence(["a"], '.')];
    assert Split([t][1..], [], ' ') == [];
  }

  /** "a.b": the parser makes two sentences of it, the splitter drops the b. */
  lemma SplitterDropsText()
    ensures Parse("a.b") == [Sentence(["a"], '.'), Sentence(["b"], ' ')]
    ensures Split(["a.b"], [], ' ') == [Sentence(["a"], '.')]
  {
    TwoSentences();
    OneSentence();
  }

  /** ".b": counted as one word when it is queued, but adds none when it is committed. */
  lemma CountersDisagree()
    ensures CountWords(".b") == 1
    ensures WordsOf(Split([".b"], [], ' ')) == []
  {
    var t := ".b";
    assert TokensFrom(t, "") == [t] by {
      assert t[1..] == "b" && "b"[1..] == "" && "" + ['.'] == "." && "." + ['b'] == t;
      assert TokensFrom("", t) == [t];
      assert TokensFrom("b", ".") == [t];
    }
    assert t[1] in t && HasText(t);
    assert CountText([t]) == 1 + CountText([]);
    SplitWords([t], [], ' ');
    assert Head(t) == "";
  }

  /** The server with `f` loaded, for as many users as there are sessions. */
  ghost function Editors(disk: map<string, string>, f: string, locks: seq<Lock>, sessions: map<nat, Session>): Server
    requires f in disk
  {
    var d := Parse(disk[f]);
    Init(disk).(docs := Init(disk).docs[0 := Active(f, Fresh(d, 0), |sessions|)], locks := locks,
                sessions := sessions, nextId := |d|)
  }

  ghost function NewSession(disk: map<string, string>, f: string, i: nat): Session
    requires f in disk && i < |Parse(disk[f])|
  {
    Session(0, i, |Parse(disk[f])[i].words|, [], 0)
  }

  lemma FirstWrite(disk: map<string, string>, f: string, i: nat)
    requires f in disk && i < |Parse(disk[f])|
    ensures Step(Init(disk), Write(0, f, i))
         == Editors(disk, f, Init(disk).locks[0 := Lock(f, i, 0)], map[0 := NewSession(disk, f, i)])
  {
    var s := Init(disk);
    assert FindDoc(s.docs, f, 0) == -1 && FindEmpty(s.docs, 0) == 0;
    assert FindLock(s.locks, f, i, 0) == -1 && FindFreeLock(s.locks, 0) == 0;
    assert map[][0 := NewSession(disk, f, i)] == map[0 := NewSession(disk, f, i)];
  }

  lemma NextWrite(disk: map<string, string>, f: string, i: nat)
    requires f in disk && i + 1 < |Parse(disk[f])|
    ensures var locks, sessions := Init(disk).locks[0 := Lock(f, i, 0)], map[0 := NewSession(disk, f, i)];
            Step(Editors(disk, f, locks, sessions), Write(1, f, i + 1))
            == Editors(disk, f, locks[1 := Lock(f, i + 1, 1)], sessions[1 := NewSession(disk, f, i + 1)])
  {
    var locks, sessions := Init(disk).locks[0 := Lock(f, i, 0)], map[0 := NewSession(disk, f, i)];
    var s := Editors(disk, f, locks, sessions);
    assert FindDoc(s.docs, f, 0) == 0;
    assert FindLock(s.locks, f, i + 1, 0) == -1 && FindFreeLock(s.locks, 0) == 1 by {
      assert FindFreeLock(s.locks, 0) == FindFreeLock(s.locks, 1);
    }
    assert |sessions| == 1 && |sessions[1 := NewSession(disk, f, i + 1)]| == 2;
  }

  lemma EmptyEtirw(disk: map<string, string>, f: string, i: nat, locks: seq<Lock>, sessions: map<nat, Session>)
    requires f in disk && i + 1 < |Parse(disk[f])| && Parse(disk[f])[i].words == []
    requires sessions == map[0 := NewSession(disk, f, i), 1 := NewSession(disk, f, i + 1)]
    ensures var s := Step(Editors(disk, f, locks, sessions), Etirw(0));
            && s.sessions == map[1 := NewSession(disk, f, i + 1)]
            && s.docs == Init(disk).docs[0 := Active(f, Fresh(Parse(disk[f]), 0)[..i], 1)]
  {
    var s, nodes := Editors(disk, f, locks, sessions), Fresh(Parse(disk[f]), 0);
    var session := NewSession(disk, f, i);
    assert FindNode(nodes, i) == i by {
      assert nodes[i].id == i && nodes[FindNode(nodes, i)].id == FindNode(nodes, i);
    }
    assert Replay(nodes[i], session) == Some([]);
    assert Relink(nodes, i, Fresh(Split([], [], nodes[i].delim), s.nextId)) == nodes[..i];
    assert |sessions| == 2;
    assert sessions - {0} == map[1 := NewSession(disk, f, i + 1)];
  }

  lemma RunThree(s: Server, a: Event, b: Event, c: Event)
    ensures Run(s, [a, b, c]) == Step(Step(Step(s, a), b), c)
  {
    assert [a, b, c][1..] == [b, c] && [b, c][1..] == [c] && [c][1..] == [];
    assert Run(Step(Step(s, a), b), [c]) == Run(Step(Step(Step(s, a), b), c), []);
  }

  /** WRITE on an empty sentence of any file, another WRITE on the next one, and ETIRW without edits,
      from start-up: the rest of the list is cut off, and the other session's sentence is gone. */
  lemma EmptyCommitCutsDocument(disk: map<string, string>, f: string, i: nat)
    requires f in disk && i + 1 < |Parse(disk[f])| && Parse(disk[f])[i].words == []
    ensures var s := Run(Init(disk), [Write(0, f, i), Write(1, f, i + 1), Etirw(0)]);
            && 1 in s.sessions && Target(s, s.sessions[1]) == None
            && InDoc(s.docs, s.sessions[1]) && Contents(s.docs[s.sessions[1].doc].nodes) == Parse(disk[f])[..i]
  {
    var session, next := NewSession(disk, f, i), NewSession(disk, f, i + 1);
    var locks, sessions := Init(disk).locks[0 := Lock(f, i, 0)][1 := Lock(f, i + 1, 1)], map[0 := session, 1 := next];
    FirstWrite(disk, f, i);
    NextWrite(disk, f, i);
    assert map[0 := session][1 := next] == sessions;
    EmptyEtirw(disk, f, i, locks, sessions);
    RunThree(Init(disk), Write(0, f, i), Write(1, f, i + 1), Etirw(0));
    CutOff(disk, f, i, Step(Editors(disk, f, locks, sessions), Etirw(0)));
  }

  lemma CutOff(disk: map<string, string>, f: string, i: nat, s: Server)
    requires f in disk && i + 1 < |Parse(disk[f])| && s.sessions == map[1 := NewSession(disk, f, i + 1)]
    requires s.docs == Init(disk).docs[0 := Active(f, Fresh(Parse(disk[f]), 0)[..i], 1)]
    ensures 1 in s.sessions && Target(s, s.sessions[1]) == None
    ensures InDoc(s.docs, s.sessions[1]) && Contents(s.docs[s.sessions[1].doc].nodes) == Parse(disk[f])[..i]
  {
  }

  // ---------- a backup that is open itself ----------

  /** The first WRITE of a run, from start-up. */
  lemma FirstSession(disk: map<string, string>, f: string)
    requires f in disk
    ensures var s := Step(Init(disk), Write(0, f, 0));
            && Synced(s) && Live(s, 0) && SlotOf(s, 0).name == f && s.sessions[0].edits == []
            && NodeOf(s, 0).words == Parse(disk[f])[0].words && s.disk == disk
            && s.sessions.Keys == {0}
            && (forall i | 0 <= i < |s.locks| && s.locks[i].Lock? :: s.locks[i].name == f)
            && FindFreeLock(s.locks, 0) == 1 && FindEmpty(s.docs, 0) == 1
            && (forall i | 0 <= i < |s.docs| && s.docs[i].Active? :: s.docs[i].name == f)
  {
    var s, session := Step(Init(disk), Write(0, f, 0)), NewSession(disk, f, 0);
    FirstWrite(disk, f, 0);
    InitSynced(disk);
    assert s.locks == Init(disk).locks[0 := Lock(f, 0, 0)] && s.sessions == map[0 := session];
    WriteCases(Init(disk), 0, f, 0);
    SyncStepIff(Init(disk), Write(0, f, 0));
    SessionsAreLive(s, 0);
    assert FindFreeLock(s.locks, 0) == FindFreeLock(s.locks, 1) == 1;
    assert FindEmpty(s.docs, 0) == FindEmpty(s.docs, 1) == 1;
    FreshContents(Parse(disk[f]), 0);
    assert Contents(SlotOf(s, 0).nodes)[0] == Sentence(NodeOf(s, 0).words, NodeOf(s, 0).delim);
  }

  /** A second connection opens the backup of the file. */
  lemma BackupSession(disk: map<string, string>, f: string)
    requires f in disk && BackupName(f) in disk
    ensures var s := Step(Step(Init(disk), Write(0, f, 0)), Write(1, BackupName(f), 0));
            && Synced(s) && Live(s, 0) && Live(s, 1) && s.disk == disk && s.sessions[0].edits == []
            && SlotOf(s, 0).name == f && NodeOf(s, 0).words == Parse(disk[f])[0].words
            && IsBackupOf(s, 0, s.sessions[1].doc) && s.sessions[1].doc != s.sessions[0].doc
            && s.sessions.Keys == {0, 1}
  {
    var g := BackupName(f);
    var s := Step(Init(disk), Write(0, f, 0));
    var e := Write(1, g, 0);
    FirstSession(disk, f);
    BackupDiffers(f);
    assert FindDoc(s.docs, g, 0) == -1;
    var (s0, d) := FindOrLoad(s, g);
    assert d == 1 && FindLock(s0.locks, g, s0.docs[d].nodes[0].id, 0) == -1;
    assert Grants(s, g, 0);
    WriteCases(s, 1, g, 0);
    SyncStepIff(s, e);
    WriteFrame(s, e, 0);
    SessionsAreLive(Step(s, e), 1);
  }

  /** With a file and its backup both open, a commit of the file leaves the backup in memory different
      from the backup on disk, unless the two read alike. Nothing else is amiss. */
  lemma OpenBackupDisagrees(disk: map<string, string>, f: string)
    requires f in disk && BackupName(f) in disk && Parse(disk[f])[0].words != []
    requires Parse(disk[f]) != Parse(disk[BackupName(f)])
    ensures var s := Run(Init(disk), [Write(0, f, 0), Write(1, BackupName(f), 0), Etirw(0)]);
            && Inv(s) && Live(s, 1) && SlotOf(s, 1).name == BackupName(f) && BackupName(f) in s.disk
            && Parse(s.disk[BackupName(f)]) != Closed(Contents(SlotOf(s, 1).nodes))
  {
    var s := Step(Step(Init(disk), Write(0, f, 0)), Write(1, BackupName(f), 0));
    RunThree(Init(disk), Write(0, f, 0), Write(1, BackupName(f), 0), Etirw(0));
    BackupSession(disk, f);
    BackupOverwritten(s, 0, 1);
  }

  /** The same from any state in which two sessions have a file and its backup open. */
  lemma BackupOverwritten(s: Server, k: nat, l: nat)
    requires Synced(s) && Live(s, k) && Live(s, l) && s.sessions[k].edits == [] && NodeOf(s, k).words != []
    requires IsBackupOf(s, k, s.sessions[l].doc) && s.sessions[l].doc != s.sessions[k].doc
    requires SlotOf(s, k).name in s.disk && SlotOf(s, l).name in s.disk
    requires Parse(s.disk[SlotOf(s, k).name]) != Parse(s.disk[SlotOf(s, l).name])
    ensures var s1 := Step(s, Etirw(k));
            && Inv(s1) && Live(s1, l) && SlotOf(s1, l).name == SlotOf(s, l).name && SlotOf(s, l).name in s1.disk
            && Parse(s1.disk[SlotOf(s, l).name]) != Closed(Contents(SlotOf(s1, l).nodes))
  {
    var s1, d := Step(s, Etirw(k)), s.sessions[l].doc;
    StepInv(s, Etirw(k));
    StepFrame(s, Etirw(k), l);
    EtirwIs(s, k);
    CountsAgreeIff(s, k);
    OtherAgreesIff(s, k, d);
    CloseDocs(Committed(s, k), k);
    assert OnDisk(s.docs[d], s.disk) && OnDisk(SlotOf(s, k), s.disk);
    SaveFileFrame(s.disk, SlotOf(s, k).name, Flush(Contents(NewNodes(s, k))));
  }
}
