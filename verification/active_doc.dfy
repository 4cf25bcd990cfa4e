/** A slot of the active-document table, and the list surgery of a commit on it. */
module ActiveDocument {
  import opened Document
  import opened Rebuild
  import opened EditEngine
  import opened SentenceList

  class ActiveDoc {
    var active: bool
    var filename: string
    var head: SentenceNode?
    var users: int
    ghost var nodes: seq<SentenceNode>

    constructor ()
      ensures !active && nodes == []
    {
      active, filename, head, users, nodes := false, "", null, 0, [];
    }

    ghost predicate Valid()
      reads this, nodes
    {
      active ==> Chain(head, nodes)
    }

    /** The slot as the edit engine sees it. */
    ghost function Value(): Slot
      reads this, nodes
    {
      if active then Active(filename, Values(nodes), users) else Empty
    }

    /** Parse a file into the slot. */
    method Load(name: string, text: string, ghost base: nat)
      modifies this
      ensures Valid() && active && forall n | n in nodes :: fresh(n)
      ensures Value() == Active(name, Fresh(Parse(text), base), 0)
    {
      head, nodes := ParseFileToList(text, base);
      active, filename, users := true, name, 0;
    }

    /** The position of a node in the list, or -1. */
    method IndexOf(target: SentenceNode) returns (index: int)
      requires Valid() && active
      ensures if target in nodes then 0 <= index < |nodes| && nodes[index] == target else index == -1
    {
      index := 0;
      var t := head;
      while t != null && t != target
        invariant Valid()
        invariant 0 <= index <= |nodes| && t == (if index < |nodes| then nodes[index] else null)
        invariant target !in nodes[..index]
        decreases |nodes| - index
      {
        assert t == nodes[index] && nodes[index].next == (if index + 1 < |nodes| then nodes[index + 1] else null);
        t := t.next;
        index := index + 1;
      }
      if t == null {
        index := -1;
      }
    }

    /** Swap `target` for the run. Only links change: the predecessor's, or the head, and the last
        link of the run; the target is no longer reachable. */
    method Splice(target: SentenceNode, first: SentenceNode?, last: SentenceNode?, ghost run: seq<SentenceNode>)
      returns (found: bool, ghost p: nat)
      requires Valid() && active && Chain(first, run) && last == (if run == [] then null else run[|run| - 1])
      requires forall n | n in run :: n !in nodes
      modifies this`head, this`nodes, nodes, last
      ensures Valid() && found == (target in old(nodes))
      ensures !found ==> nodes == old(nodes)
      ensures found ==> p < |old(nodes)| && old(nodes)[p] == target && nodes == Spliced(old(nodes), p, run)
      ensures forall n | n in old(nodes) || n in run :: SentenceList.Value(n) == old(SentenceList.Value(n))
    {
      var prev: SentenceNode? := null;
      var t := head;
      p := 0;
      while t != null && t != target
        invariant Valid()
        invariant 0 <= p <= |nodes| && t == (if p < |nodes| then nodes[p] else null)
        invariant prev == (if p == 0 then null else nodes[p - 1])
        invariant target !in nodes[..p]
        decreases |nodes| - p
      {
        assert t == nodes[p] && nodes[p].next == (if p + 1 < |nodes| then nodes[p + 1] else null);
        prev := t;
        t := t.next;
        p := p + 1;
      }
      found := t != null;
      if found {
        Link(prev, target, first, last, run, p);
      }
    }

    method Link(prev: SentenceNode?, target: SentenceNode, first: SentenceNode?, last: SentenceNode?,
                ghost run: seq<SentenceNode>, ghost p: nat)
      requires active && Chain(head, nodes) && Chain(first, run) && last == (if run == [] then null else run[|run| - 1])
      requires forall n | n in run :: n !in nodes
      requires p < |nodes| && nodes[p] == target && prev == (if p == 0 then null else nodes[p - 1])
      modifies this`head, this`nodes, prev, last
      ensures Chain(head, nodes)
      ensures nodes == Spliced(old(nodes), p, run)
      ensures forall n | n in old(nodes) || n in run :: SentenceList.Value(n) == old(SentenceList.Value(n))
    {
      ghost var nodes0 := nodes;
      var rest := target.next;
      assert rest == (if p + 1 < |nodes| then nodes[p + 1] else null) by {
        assert nodes[p].next == target.next;
      }
      if prev != null {
        prev.next := first;
      } else {
        head := first;
      }
      if last != null {
        last.next := rest;
      }
      nodes := Spliced(nodes0, p, run);
      SplicedDistinct(nodes0, p, run);
      forall i {:trigger nodes[i].next} | 0 <= i < |nodes|
        ensures nodes[i].next == if i + 1 < |nodes| then nodes[i + 1] else null
      {
        if i < p {
          assert nodes[i] == nodes0[i] && old(nodes0[i].next) == nodes0[i + 1];
          assert nodes0[i] == prev <==> i == p - 1;
        } else if i < p + |run| {
          var j := i - p;
          assert nodes[i] == run[j] && run[j] !in nodes0;
          assert j < |run| - 1 ==> old(run[j].next) == run[j + 1] && run[j] != last;
        } else {
          var j := i - |run| + 1;
          assert nodes[i] == nodes0[j] && nodes0[j] !in run && nodes0[j] != prev;
          assert old(nodes0[j].next) == if j + 1 < |nodes0| then nodes0[j + 1] else null;
        }
      }
    }

    /** A commit on one sentence: build the token array, split it into a run of nodes, and swap the
        run for the sentence. All nodes before and after are the same objects, with the same words
        and delimiters. On a bad index nothing changes. */
    method ApplySessionEdits(target: SentenceNode, edits: seq<Edit>, ghost base: nat)
      returns (rc: int, ghost p: nat, ghost run: seq<SentenceNode>)
      requires Valid() && active && target in nodes
      modifies this`head, this`nodes, nodes
      ensures Valid() && p < |old(nodes)| && old(nodes)[p] == target
      ensures rc == (if ApplyEdits(old(target.words), edits).Some? then 0 else -1)
      ensures rc == -1 ==> run == [] && nodes == old(nodes) && Values(nodes) == old(Values(nodes))
      ensures rc == 0 ==>
                var d := Split(ApplyEdits(old(target.words), edits).value, [], old(target.delimiter));
                && nodes == Spliced(old(nodes), p, run) && Values(run) == Fresh(d, base)
                && Values(nodes) == Relink(old(Values(nodes)), p, Fresh(d, base))
      ensures forall n | n in run :: fresh(n)
      ensures forall n | n in old(nodes) :: SentenceList.Value(n) == old(SentenceList.Value(n))
    {
      var ok, words, idx := SpliceEdits(target.words, edits);
      if !ok {
        p :| 0 <= p < |nodes| && nodes[p] == target;
        return -1, p, [];
      }
      p, run := ReplaceSentence(target, words[..idx], base);
      rc := 0;
    }

    /** Swap the sentence for the run its tokens are split into. */
    method ReplaceSentence(target: SentenceNode, toks: seq<string>, ghost base: nat)
      returns (ghost p: nat, ghost run: seq<SentenceNode>)
      requires Valid() && active && target in nodes
      modifies this`head, this`nodes, nodes
      ensures Valid() && p < |old(nodes)| && old(nodes)[p] == target
      ensures var d := Split(toks, [], old(target.delimiter));
              && nodes == Spliced(old(nodes), p, run) && Values(run) == Fresh(d, base)
              && Values(nodes) == Relink(old(Values(nodes)), p, Fresh(d, base))
      ensures forall n | n in run :: fresh(n)
      ensures forall n | n in old(nodes) :: SentenceList.Value(n) == old(SentenceList.Value(n))
    {
      var first, last;
      first, last, run := BuildRun(toks, target.delimiter, base);
      assert last != null ==> last in run;
      ghost var before, values, newValues := nodes, Values(nodes), Values(run);
      var found;
      found, p := Splice(target, first, last, run);
      SplicedValues(before, p, run);
      assert Values(before) == values && Values(run) == newValues;
    }
  }

  lemma FreshIds(nodes: seq<SentenceNode>, d: Doc, base: nat)
    requires Values(nodes) == Fresh(d, base)
    ensures |nodes| == |d| && forall i | 0 <= i < |nodes| :: nodes[i].id == base + i
  {
    forall i | 0 <= i < |nodes|
      ensures nodes[i].id == base + i
    {
      assert Values(nodes)[i] == Fresh(d, base)[i];
    }
  }

  /** What a splice makes of the list: prefix and suffix are the same objects, the target is gone. */
  ghost function Spliced(nodes: seq<SentenceNode>, p: nat, run: seq<SentenceNode>): seq<SentenceNode>
    requires p < |nodes|
  {
    if run == [] then nodes[..p] else nodes[..p] + run + nodes[p + 1..]
  }

  lemma SplicedFrom(nodes: seq<SentenceNode>, p: nat, run: seq<SentenceNode>, nodes': seq<SentenceNode>)
    requires p < |nodes| && (nodes' == Spliced(nodes, p, run) || (nodes' == nodes && run == []))
    ensures forall n | n in nodes' :: n in nodes || n in run
  {
  }

  lemma SplicedDistinct(nodes: seq<SentenceNode>, p: nat, run: seq<SentenceNode>)
    requires p < |nodes| && forall i, j | 0 <= i < j < |nodes| :: nodes[i] != nodes[j]
    requires forall i, j | 0 <= i < j < |run| :: run[i] != run[j]
    requires forall n | n in run :: n !in nodes
    ensures forall i, j | 0 <= i < j < |Spliced(nodes, p, run)| ::
              Spliced(nodes, p, run)[i] != Spliced(nodes, p, run)[j]
  {
    var s := Spliced(nodes, p, run);
    forall i, j | 0 <= i < j < |s|
      ensures s[i] != s[j]
    {
      assert i < p ==> s[i] == nodes[i];
      assert j < p ==> s[j] == nodes[j];
      assert p <= i < p + |run| ==> s[i] == run[i - p] && s[i] !in nodes;
      assert p <= j < p + |run| ==> s[j] == run[j - p] && s[j] !in nodes;
      assert p + |run| <= i ==> s[i] == nodes[i - |run| + 1];
      assert p + |run| <= j ==> s[j] == nodes[j - |run| + 1];
    }
  }

  lemma SplicedValues(nodes: seq<SentenceNode>, p: nat, run: seq<SentenceNode>)
    requires p < |nodes|
    ensures Values(Spliced(nodes, p, run)) == Relink(Values(nodes), p, Values(run))
  {
  }
}
