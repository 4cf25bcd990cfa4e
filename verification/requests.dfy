/** The name server's queue of access requests. */
module AccessRequests {
  import opened NameIndex
  import opened Text
  import opened AccessLists
  import NameServer

  datatype Request = Resolved | Pending(id: int, filename: string, user: string, perm: Permission)

  datatype Queue = Queue(slots: seq<Request>, nextId: int)

  function FirstResolved(slots: seq<Request>, i: nat): (r: int)
    requires i <= |slots|
    ensures -1 <= r < |slots| && (0 <= r ==> i <= r && slots[r].Resolved?)
    ensures forall j | i <= j < (if r == -1 then |slots| else r) :: !slots[j].Resolved?
    decreases |slots| - i
  {
    if i == |slots| then -1 else if slots[i].Resolved? then i else FirstResolved(slots, i + 1)
  }

  predicate HasId(request: Request, id: int) {
    request.Pending? && request.id == id
  }

  function FindId(slots: seq<Request>, id: int, i: nat): (r: int)
    requires i <= |slots|
    ensures -1 <= r < |slots| && (0 <= r ==> i <= r && HasId(slots[r], id))
    ensures forall j | i <= j < (if r == -1 then |slots| else r) :: !HasId(slots[j], id)
    decreases |slots| - i
  {
    if i == |slots| then -1 else if HasId(slots[i], id) then i else FindId(slots, id, i + 1)
  }

  /** A request is stored under the next id, if the file is known and the queue has room. */
  function Submit(q: Queue, known: bool, filename: string, user: string, perm: Permission): Queue {
    var i := FirstResolved(q.slots, 0);
    if !known || i == -1 then q
    else Queue(q.slots[i := Pending(q.nextId, filename, user, perm)], q.nextId + 1)
  }

  /** The request an owner approves or denies leaves the queue. */
  function Settle(q: Queue, id: int, byOwner: bool): Queue {
    var i := FindId(q.slots, id, 0);
    if i == -1 || !byOwner then q else q.(slots := q.slots[i := Resolved])
  }

  datatype Event =
    | DoSubmit(known: bool, filename: string, user: string, perm: Permission)
    | DoSettle(id: int, byOwner: bool)

  function Step(q: Queue, e: Event): Queue {
    match e
    case DoSubmit(known, filename, user, perm) => Submit(q, known, filename, user, perm)
    case DoSettle(id, byOwner) => Settle(q, id, byOwner)
  }

  function Run(q: Queue, es: seq<Event>): Queue
    decreases es
  {
    if es == [] then q else Run(Step(q, es[0]), es[1..])
  }

  ghost predicate IdsUnique(q: Queue) {
    && (forall i | 0 <= i < |q.slots| && q.slots[i].Pending? :: q.slots[i].id < q.nextId)
    && (forall i, j | 0 <= i < j < |q.slots| && q.slots[i].Pending? && q.slots[j].Pending? ::
          q.slots[i].id != q.slots[j].id)
  }

  /** Ids of pending requests are unique in every reachable state, and never handed out again. */
  lemma {:induction false} IdsStayUnique(q: Queue, es: seq<Event>)
    requires IdsUnique(q)
    ensures IdsUnique(Run(q, es)) && Run(q, es).nextId >= q.nextId
    decreases es
  {
    if es != [] {
      IdsStayUnique(Step(q, es[0]), es[1..]);
    }
  }

  /** The pending requests. */
  ghost function Waiting(q: Queue): set<Request> {
    set i | 0 <= i < |q.slots| && q.slots[i].Pending? :: q.slots[i]
  }

  /** A request for a known file waits under a new id with the file, user and permission asked for, beside
      all that waited before; without room or file the queue stays as it is. */
  lemma SubmitAdds(q: Queue, known: bool, filename: string, user: string, perm: Permission)
    requires IdsUnique(q)
    ensures var q', request := Submit(q, known, filename, user, perm), Pending(q.nextId, filename, user, perm);
            if known && (exists i :: 0 <= i < |q.slots| && q.slots[i].Resolved?)
            then Waiting(q') == Waiting(q) + {request} && request !in Waiting(q) && q'.nextId == q.nextId + 1
            else q' == q
  {
    var i := FirstResolved(q.slots, 0);
    if known && i != -1 {
      var q' := Submit(q, known, filename, user, perm);
      var request := Pending(q.nextId, filename, user, perm);
      assert q'.slots[i] == request;
      assert forall j | 0 <= j < |q.slots| && j != i :: q'.slots[j] == q.slots[j];
      forall r
        ensures r in Waiting(q') <==> r in Waiting(q) || r == request
      {
        if r in Waiting(q) {
          var j :| 0 <= j < |q.slots| && q.slots[j] == r;
          assert q'.slots[j] == r;
        }
      }
    }
  }

  /** Settling a pending request removes that one and no other; settling it again does nothing. */
  lemma SettleIsExact(q: Queue, i: nat)
    requires IdsUnique(q) && i < |q.slots| && q.slots[i].Pending?
    ensures Settle(q, q.slots[i].id, true) == q.(slots := q.slots[i := Resolved])
    ensures Settle(Settle(q, q.slots[i].id, true), q.slots[i].id, true) == Settle(q, q.slots[i].id, true)
  {
    var k := FindId(q.slots, q.slots[i].id, 0);
    assert k == i;
    var q1 := Settle(q, q.slots[i].id, true);
    assert forall j | 0 <= j < |q1.slots| :: !HasId(q1.slots[j], q.slots[i].id);
  }

  // ---------- the two passes of a check ----------

  /** The request is about a file of the user, by a linear scan of the catalog. */
  predicate OwnedBy(catalog: seq<File>, request: Request, user: string) {
    request.Pending? &&
    var slot := Scan(catalog, request.filename, 0);
    slot != -1 && catalog[slot].owner == user
  }

  /** The requests an owner should see. */
  function Visible(catalog: seq<File>, slots: seq<Request>, user: string): seq<Request> {
    if slots == [] then []
    else (if OwnedBy(catalog, slots[0], user) then [slots[0]] else []) + Visible(catalog, slots[1..], user)
  }

  lemma {:induction false} VisibleSnoc(catalog: seq<File>, slots: seq<Request>, user: string, n: nat)
    requires n < |slots|
    ensures Visible(catalog, slots[..n + 1], user)
         == Visible(catalog, slots[..n], user) + if OwnedBy(catalog, slots[n], user) then [slots[n]] else []
    decreases n
  {
    if n == 0 {
      assert slots[..1] == [slots[0]] && slots[..1][1..] == [] && slots[..0] == [];
    } else {
      VisibleSnoc(catalog, slots[1..], user, n - 1);
      assert slots[..n + 1][1..] == slots[1..][..n] && slots[..n][1..] == slots[1..][..n - 1];
    }
  }

  /** What an owner is shown: the waiting requests for his files, all of them and no others ... */
  lemma {:induction false} ShownIff(catalog: seq<File>, slots: seq<Request>, user: string, r: Request)
    ensures r in Visible(catalog, slots, user) <==> r in slots && OwnedBy(catalog, r, user)
  {
    if slots != [] {
      ShownIff(catalog, slots[1..], user, r);
      assert slots == [slots[0]] + slots[1..];
    }
  }

  /** ... in queue order. */
  lemma {:induction false} ShownInOrder(catalog: seq<File>, slots: seq<Request>, user: string)
    ensures Subsequence(Visible(catalog, slots, user), slots)
  {
    if slots != [] {
      ShownInOrder(catalog, slots[1..], user);
      var rest := Visible(catalog, slots[1..], user);
      if OwnedBy(catalog, slots[0], user) {
        assert ([slots[0]] + rest)[1..] == rest;
      } else {
        assert [] + rest == rest;
        SubsequenceSkip(rest, slots);
      }
    }
  }

  /** CHECKREQUESTS: one pass to announce the number, one to send the items. Every lookup may change
      the cache between them, and still the number announced is the number sent, and the items are
      exactly the requests for the user's files, in queue order. */
  method CheckRequests(server: NameServer.Server, slots: seq<Request>, user: string)
    returns (announced: nat, sent: seq<Request>)
    requires server.Valid() && Inv(server.State())
    modifies server.cache
    ensures Inv(server.State()) && server.State().(cache := old(server.cache[..])) == old(server.State())
    ensures sent == Visible(server.catalog[..], slots, user) && announced == |sent|
  {
    announced := 0;
    for i := 0 to |slots|
      invariant server.catalog[..] == old(server.catalog[..]) && Inv(server.State())
      invariant server.State().(cache := old(server.cache[..])) == old(server.State())
      invariant announced == |Visible(server.catalog[..], slots[..i], user)|
    {
      VisibleSnoc(server.catalog[..], slots, user, i);
      var owned := IsOwned(server, slots[i], user);
      if owned {
        announced := announced + 1;
      }
    }
    sent := [];
    for i := 0 to |slots|
      invariant server.catalog[..] == old(server.catalog[..]) && Inv(server.State())
      invariant server.State().(cache := old(server.cache[..])) == old(server.State())
      invariant sent == Visible(server.catalog[..], slots[..i], user)
    {
      VisibleSnoc(server.catalog[..], slots, user, i);
      var owned := IsOwned(server, slots[i], user);
      if owned {
        sent := sent + [slots[i]];
      }
    }
    assert slots[..|slots|] == slots;
  }

  /** The test both passes make, through the index. */
  method IsOwned(server: NameServer.Server, request: Request, user: string) returns (owned: bool)
    requires server.Valid() && Inv(server.State())
    modifies server.cache
    ensures Inv(server.State()) && server.State().(cache := old(server.cache[..])) == old(server.State())
    ensures owned == OwnedBy(server.catalog[..], request, user)
  {
    if request.Resolved? {
      return false;
    }
    LookupIsScan(server.State(), request.filename);
    var slot := server.FindFileSlot(request.filename);
    owned := slot != -1 && server.catalog[slot].owner == user;
  }

  // ---------- approving ----------

  /** The request with the id is about a file of the user, in this catalog slot. */
  function OwnedSlot(q: Queue, catalog: seq<File>, id: int, user: string): (slot: int)
    ensures -1 <= slot < |catalog|
  {
    var i := FindId(q.slots, id, 0);
    if i != -1 && OwnedBy(catalog, q.slots[i], user) then Scan(catalog, q.slots[i].filename, 0) else -1
  }

  /** The queue, the access lists by catalog slot, and whether the request was approved. */
  function Approve(q: Queue, catalog: seq<File>, lists: seq<seq<Access>>, id: int, user: string)
    : (Queue, seq<seq<Access>>, bool)
    requires |lists| == |catalog|
  {
    var slot := OwnedSlot(q, catalog, id, user);
    if slot == -1 then (q, lists, false)
    else
      var request := q.slots[FindId(q.slots, id, 0)];
      var ok := HasRoom(lists[slot], request.user);
      (Settle(q, id, ok), lists[slot := Grant(lists[slot], request.user, request.perm)], ok)
  }

  /** An approval succeeds exactly for a pending request about a file of the user whose list has room.
      It then gives that user that permission on that file, changes no other permission, and settles
      the request; a refused one changes nothing. */
  lemma ApproveIsExact(q: Queue, catalog: seq<File>, lists: seq<seq<Access>>, i: nat, user: string,
                       k: nat, other: string)
    requires IdsUnique(q) && i < |q.slots| && q.slots[i].Pending?
    requires |lists| == |catalog| && k < |lists| && forall l | 0 <= l < |lists| :: UsersDistinct(lists[l])
    requires forall l | 0 <= l < |lists| :: |lists[l]| <= MAX_PERMISSIONS_PER_FILE
    ensures var r, slot := q.slots[i], Scan(catalog, q.slots[i].filename, 0);
            var (q', lists', ok) := Approve(q, catalog, lists, r.id, user);
            && (ok <==> OwnedBy(catalog, r, user) && HasRoom(lists[slot], r.user))
            && (ok ==> q' == q.(slots := q.slots[i := Resolved]))
            && (!ok ==> q' == q && lists' == lists)
            && |lists'| == |lists| && UsersDistinct(lists'[k]) && |lists'[k]| <= MAX_PERMISSIONS_PER_FILE
            && PermissionOf(lists'[k], other)
               == if ok && k == slot && other == r.user then r.perm else PermissionOf(lists[k], other)
  {
    var r, slot := q.slots[i], Scan(catalog, q.slots[i].filename, 0);
    SettleIsExact(q, i);
    if OwnedBy(catalog, r, user) && k == slot {
      GrantRefinesMap(lists[k], r.user, r.perm, other);
    }
  }

  // ---------- in place ----------

  /** The fixed table of requests. */
  class RequestTable {
    const slots: array<Request>
    var nextId: int

    ghost function State(): Queue
      reads this, slots
    {
      Queue(slots[..], nextId)
    }

    constructor (size: nat)
      ensures State() == Queue(seq(size, _ => Resolved), 1) && IdsUnique(State()) && fresh(slots)
    {
      slots := new Request[size](_ => Resolved);
      nextId := 1;
    }

    /** REQACCESS: for a file the index knows, while there is room. */
    method HandleRequestAccess(server: NameServer.Server, filename: string, user: string, perm: Permission)
      returns (ok: bool)
      requires server.Valid() && Inv(server.State())
      modifies this`nextId, slots, server.cache
      ensures Inv(server.State()) && server.State().(cache := old(server.cache[..])) == old(server.State())
      ensures var known := Scan(old(server.catalog[..]), filename, 0) != -1;
              && State() == Submit(old(State()), known, filename, user, perm)
              && (ok <==> known && FirstResolved(old(slots[..]), 0) != -1)
    {
      LookupIsScan(server.State(), filename);
      var slot := server.FindFileSlot(filename);
      if slot == -1 {
        return false;
      }
      ok := Store(filename, user, perm);
    }

    /** Store a request in the first free slot. */
    method Store(filename: string, user: string, perm: Permission) returns (ok: bool)
      modifies this`nextId, slots
      ensures State() == Submit(old(State()), true, filename, user, perm)
      ensures ok <==> FirstResolved(old(slots[..]), 0) != -1
    {
      var i := 0;
      while i < slots.Length
        invariant 0 <= i <= slots.Length && State() == old(State())
        invariant FirstResolved(slots[..], i) == FirstResolved(slots[..], 0)
      {
        if slots[i].Resolved? {
          slots[i] := Pending(nextId, filename, user, perm);
          nextId := nextId + 1;
          return true;
        }
        i := i + 1;
      }
      ok := false;
    }

    method FindRequest(id: int) returns (i: int)
      ensures i == FindId(slots[..], id, 0)
    {
      i := 0;
      while i < slots.Length
        invariant 0 <= i <= slots.Length && FindId(slots[..], id, i) == FindId(slots[..], id, 0)
      {
        if slots[i].Pending? && slots[i].id == id {
          return;
        }
        i := i + 1;
      }
      i := -1;
    }

    /** The pending request and, if the user owns its file, the file's catalog slot. */
    method FindOwned(server: NameServer.Server, id: int, user: string) returns (i: int, slot: int)
      requires server.Valid() && Inv(server.State())
      modifies server.cache
      ensures Inv(server.State()) && server.State().(cache := old(server.cache[..])) == old(server.State())
      ensures State() == old(State())
      ensures i == FindId(slots[..], id, 0) && slot == OwnedSlot(State(), server.catalog[..], id, user)
    {
      slot := -1;
      i := FindRequest(id);
      if i == -1 {
        return;
      }
      LookupIsScan(server.State(), slots[i].filename);
      var found := server.FindFileSlot(slots[i].filename);
      if found != -1 && server.catalog[found].owner == user {
        slot := found;
      }
    }

    /** Deny: the owner drops the request. */
    method HandleDeny(server: NameServer.Server, id: int, user: string) returns (ok: bool)
      requires server.Valid() && Inv(server.State())
      modifies slots, server.cache
      ensures Inv(server.State()) && server.State().(cache := old(server.cache[..])) == old(server.State())
      ensures ok <==> OwnedSlot(old(State()), old(server.catalog[..]), id, user) != -1
      ensures State() == Settle(old(State()), id, ok)
    {
      var i, slot := FindOwned(server, id, user);
      ok := slot != -1;
      if ok {
        slots[i] := Resolved;
      }
    }

    /** Approve: the owner grants the access in the list of the file's catalog slot, if there is room
        for it, and drops the request. */
    method HandleApprove(server: NameServer.Server, lists: seq<AccessList>, id: int, user: string) returns (ok: bool)
      requires server.Valid() && Inv(server.State()) && ListPerFile(lists, server.catalog.Length)
      modifies slots, server.cache, lists, Arrays(lists)
      ensures Inv(server.State()) && ListPerFile(lists, server.catalog.Length)
      ensures server.State().(cache := old(server.cache[..])) == old(server.State())
      ensures (State(), ListsOf(lists), ok)
           == Approve(old(State()), old(server.catalog[..]), old(ListsOf(lists)), id, user)
    {
      var i, slot := FindOwned(server, id, user);
      if slot == -1 {
        return false;
      }
      ok := GrantIn(lists, slot, slots[i].user, slots[i].perm);
      if ok {
        slots[i] := Resolved;
      }
    }
  }

  // ---------- the access lists of the catalog ----------

  ghost function Arrays(lists: seq<AccessList>): set<object> {
    set k | 0 <= k < |lists| :: lists[k].list
  }

  /** Every catalog slot has an access list of its own. */
  ghost predicate ListPerFile(lists: seq<AccessList>, files: nat)
    reads lists
  {
    && |lists| == files
    && (forall k | 0 <= k < |lists| :: lists[k].Valid())
    && (forall k, l | 0 <= k < l < |lists| :: lists[k] != lists[l] && lists[k].list != lists[l].list)
  }

  ghost function ContentsAt(lists: seq<AccessList>, k: nat): seq<Access>
    reads lists, Arrays(lists)
  {
    if k < |lists| && lists[k].Valid() then lists[k].Contents() else []
  }

  ghost function ListsOf(lists: seq<AccessList>): seq<seq<Access>>
    reads lists, Arrays(lists)
  {
    seq(|lists|, k requires 0 <= k < |lists| reads lists, Arrays(lists) => ContentsAt(lists, k))
  }

  /** A grant in one of the lists. */
  method GrantIn(lists: seq<AccessList>, slot: nat, user: string, perm: Permission) returns (ok: bool)
    requires ListPerFile(lists, |lists|) && slot < |lists|
    modifies lists[slot], lists[slot].list
    ensures ListPerFile(lists, |lists|)
    ensures ListsOf(lists) == old(ListsOf(lists))[slot := Grant(old(ListsOf(lists))[slot], user, perm)]
    ensures ok <==> HasRoom(old(ListsOf(lists))[slot], user)
  {
    ok := lists[slot].Add(user, perm);
  }
}
