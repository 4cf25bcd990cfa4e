/** The access lists of the catalog slots, over every run of the name server: what a user may do with a
    file changes as the requests say, and lists of slots that are used again are never inherited. */
module AccessRuns {
  import opened Djb2
  import opened AccessLists
  import opened AccessRequests
  import N = NameIndex
  import NameServer

  datatype State = State(ix: N.Index, lists: seq<seq<Access>>, q: Queue)

  datatype Event =
    | OnIndex(request: N.Event, announced: seq<seq<Access>>)
    | AddAccess(name: string, client: string, user: string, perm: Permission)
    | RemAccess(name: string, client: string, user: string)
    | Ask(name: string, user: string, perm: Permission)
    | ApproveIt(id: int, client: string)
    | DenyIt(id: int, client: string)

  predicate Sized(s: State) {
    |s.ix.table| == HASH_SIZE && |s.lists| == |s.ix.catalog|
  }

  // ---------- the steps ----------

  /** The slot a lookup gives, if the client owns the file there. */
  function OwnSlot(ix: N.Index, slot: int, client: string): (r: int)
    ensures -1 <= r < |ix.catalog|
  {
    if 0 <= slot < |ix.catalog| && ix.catalog[slot].File? && ix.catalog[slot].owner == client then slot else -1
  }

  /** A created file starts with an empty list, an announced one with the list of its storage server. */
  function ListsAll(ix: N.Index, lists: seq<seq<Access>>, sock: nat, files: seq<(string, string)>,
                    announced: seq<seq<Access>>): (r: seq<seq<Access>>)
    requires |ix.table| == HASH_SIZE && |lists| == |ix.catalog|
    ensures |r| == |lists|
    decreases files
  {
    if files == [] || announced == [] then lists
    else
      var slot := N.FreeSlot(ix.catalog, 0);
      ListsAll(N.Catalog(ix, sock, files[0]), if slot == -1 then lists else lists[slot := announced[0]], sock,
               files[1..], announced[1..])
  }

  function ListsAfter(s: State, e: N.Event, announced: seq<seq<Access>>): (r: seq<seq<Access>>)
    requires Sized(s)
    ensures |r| == |s.lists|
  {
    match e
    case Create(name, user, confirmed) =>
      var slot := N.FreeSlot(s.ix.catalog, 0);
      if N.Lookup(s.ix, name).1 == -1 && N.FirstServer(s.ix.servers, 0) != -1 && confirmed && slot != -1
      then s.lists[slot := []] else s.lists
    case Register(sock, files) => ListsAll(N.SetServer(s.ix, sock, true), s.lists, sock, files, announced)
    case _ => s.lists
  }

  function Step(s: State, e: Event): (r: State)
    requires Sized(s)
    ensures Sized(r)
  {
    match e
    case OnIndex(request, announced) =>
      s.(ix := N.Step(s.ix, request), lists := ListsAfter(s, request, announced))
    case AddAccess(name, client, user, perm) =>
      var (ix, found) := N.Lookup(s.ix, name);
      var slot := OwnSlot(ix, found, client);
      if slot == -1 then s.(ix := ix) else s.(ix := ix, lists := s.lists[slot := Grant(s.lists[slot], user, perm)])
    case RemAccess(name, client, user) =>
      var (ix, found) := N.Lookup(s.ix, name);
      var slot := OwnSlot(ix, found, client);
      if slot == -1 then s.(ix := ix) else s.(ix := ix, lists := s.lists[slot := Revoke(s.lists[slot], user)])
    case Ask(name, user, perm) =>
      var (ix, found) := N.Lookup(s.ix, name);
      s.(ix := ix, q := Submit(s.q, found != -1, name, user, perm))
    case ApproveIt(id, client) =>
      var i := FindId(s.q.slots, id, 0);
      if i == -1 then s
      else
        var (ix, found) := N.Lookup(s.ix, s.q.slots[i].filename);
        var slot, r := OwnSlot(ix, found, client), s.q.slots[i];
        if slot == -1 then s.(ix := ix)
        else State(ix, s.lists[slot := Grant(s.lists[slot], r.user, r.perm)],
                  Settle(s.q, id, HasRoom(s.lists[slot], r.user)))
    case DenyIt(id, client) =>
      var i := FindId(s.q.slots, id, 0);
      if i == -1 then s
      else
        var (ix, found) := N.Lookup(s.ix, s.q.slots[i].filename);
        s.(ix := ix, q := Settle(s.q, id, OwnSlot(ix, found, client) != -1))
  }

  function Run(s: State, es: seq<Event>): (r: State)
    requires Sized(s)
    ensures Sized(r)
    decreases es
  {
    if es == [] then s else Run(Step(s, es[0]), es[1..])
  }

  // ---------- the invariant ----------

  ghost predicate ListOk(list: seq<Access>) {
    UsersDistinct(list) && |list| <= MAX_PERMISSIONS_PER_FILE
  }

  ghost predicate ListsOk(lists: seq<seq<Access>>) {
    forall k | 0 <= k < |lists| :: ListOk(lists[k])
  }

  ghost predicate Inv(s: State) {
    Sized(s) && N.Inv(s.ix) && ListsOk(s.lists) && IdsUnique(s.q)
  }

  /** The index is kept, and storage servers announce lists without duplicates. */
  ghost predicate Guard(s: State, e: Event)
    requires Sized(s)
  {
    e.OnIndex? ==>
      && N.Guard(s.ix, e.request)
      && (e.request.Register? ==> |e.announced| == |e.request.files| && ListsOk(e.announced))
  }

  ghost predicate Guarded(s: State, es: seq<Event>)
    requires Sized(s)
    decreases es
  {
    es == [] || (Guard(s, es[0]) && Guarded(Step(s, es[0]), es[1..]))
  }

  lemma {:induction false} ListsAllOk(ix: N.Index, lists: seq<seq<Access>>, sock: nat, files: seq<(string, string)>,
                                      announced: seq<seq<Access>>)
    requires |ix.table| == HASH_SIZE && |lists| == |ix.catalog| && ListsOk(lists) && ListsOk(announced)
    ensures ListsOk(ListsAll(ix, lists, sock, files, announced))
    decreases files
  {
    if files != [] && announced != [] {
      var slot := N.FreeSlot(ix.catalog, 0);
      ListsAllOk(N.Catalog(ix, sock, files[0]), if slot == -1 then lists else lists[slot := announced[0]], sock,
                 files[1..], announced[1..]);
    }
  }

  lemma RevokeOk(list: seq<Access>, user: string)
    requires ListOk(list)
    ensures ListOk(Revoke(list, user))
  {
    RevokeFacts(list, user);
  }

  lemma GrantOk(list: seq<Access>, user: string, perm: Permission)
    requires ListOk(list)
    ensures ListOk(Grant(list, user, perm))
  {
    GrantRefinesMap(list, user, perm, user);
  }

  lemma LookupOk(s: State, name: string)
    requires Inv(s)
    ensures var (ix, slot) := N.Lookup(s.ix, name);
            && N.Inv(ix) && |ix.table| == HASH_SIZE && slot == N.Scan(s.ix.catalog, name, 0)
            && ix.catalog == s.ix.catalog && ix.servers == s.ix.servers
  {
    N.LookupIsScan(s.ix, name);
  }

  lemma GrantInv(s: State, ix: N.Index, q: Queue, slot: nat, user: string, perm: Permission)
    requires Inv(s) && N.Inv(ix) && |ix.catalog| == |s.lists| && IdsUnique(q) && slot < |s.lists|
    ensures Inv(State(ix, s.lists[slot := Grant(s.lists[slot], user, perm)], q))
  {
    GrantOk(s.lists[slot], user, perm);
  }

  lemma ApproveInv(s: State, id: int, client: string)
    requires Inv(s)
    ensures Inv(Step(s, ApproveIt(id, client)))
  {
    var i := FindId(s.q.slots, id, 0);
    if i != -1 {
      var r := s.q.slots[i];
      LookupOk(s, r.filename);
      var slot := OwnSlot(s.ix, N.Scan(s.ix.catalog, r.filename, 0), client);
      if slot != -1 {
        var q := Settle(s.q, id, HasRoom(s.lists[slot], r.user));
        GrantInv(s, N.Lookup(s.ix, r.filename).0, q, slot, r.user, r.perm);
      }
    }
  }

  lemma ListStepInv(s: State, e: Event)
    requires Inv(s) && !e.OnIndex?
    ensures Inv(Step(s, e))
  {
    match e
    case AddAccess(name, client, user, perm) =>
      LookupOk(s, name);
      var slot := OwnSlot(s.ix, N.Scan(s.ix.catalog, name, 0), client);
      if slot != -1 {
        GrantInv(s, N.Lookup(s.ix, name).0, s.q, slot, user, perm);
      }
    case RemAccess(name, client, user) =>
      LookupOk(s, name);
      var slot := OwnSlot(s.ix, N.Scan(s.ix.catalog, name, 0), client);
      if slot != -1 {
        RevokeOk(s.lists[slot], user);
      }
    case Ask(name, _, _) => LookupOk(s, name);
    case ApproveIt(id, client) => ApproveInv(s, id, client);
    case DenyIt(id, _) =>
      var i := FindId(s.q.slots, id, 0);
      if i != -1 {
        LookupOk(s, s.q.slots[i].filename);
      }
  }

  /** Every guarded step keeps the lists free of duplicates and within their bound, the index sound and
      the ids unique. */
  lemma StepInv(s: State, e: Event)
    requires Inv(s) && Guard(s, e)
    ensures Inv(Step(s, e))
  {
    if !e.OnIndex? {
      ListStepInv(s, e);
    } else {
      N.StepInv(s.ix, e.request);
      if e.request.Register? {
        ListsAllOk(N.SetServer(s.ix, e.request.sock, true), s.lists, e.request.sock, e.request.files, e.announced);
      }
    }
  }

  lemma {:induction false} ListsStayOk(s: State, es: seq<Event>)
    requires Inv(s) && Guarded(s, es)
    ensures Inv(Run(s, es))
    decreases es
  {
    if es != [] {
      StepInv(s, es[0]);
      ListsStayOk(Step(s, es[0]), es[1..]);
    }
  }

  // ---------- what a user may do ----------

  /** What the user may do with the file, by its list; owners are decided elsewhere. */
  function Perm(s: State, name: string, user: string): Permission
    requires Sized(s)
  {
    var slot := N.Scan(s.ix.catalog, name, 0);
    if slot == -1 then NO_PERM else PermissionOf(s.lists[slot], user)
  }

  /** The owner of the file asks. */
  predicate Owns(s: State, name: string, client: string)
    requires Sized(s)
  {
    var slot := N.Scan(s.ix.catalog, name, 0);
    slot != -1 && s.ix.catalog[slot].owner == client
  }

  /** The list of the file has room for the user. */
  predicate Room(s: State, name: string, user: string)
    requires Sized(s)
  {
    var slot := N.Scan(s.ix.catalog, name, 0);
    slot != -1 && HasRoom(s.lists[slot], user)
  }

  /** The pending request the client may settle. */
  function Settled(s: State, id: int, client: string): (i: int)
    requires Sized(s)
    ensures -1 <= i < |s.q.slots| && (i != -1 ==> s.q.slots[i].Pending? && Owns(s, s.q.slots[i].filename, client))
  {
    var i := FindId(s.q.slots, id, 0);
    if i != -1 && Owns(s, s.q.slots[i].filename, client) then i else -1
  }

  /** The permission a registering storage server announces for a new file. */
  function Announced(ix: N.Index, sock: nat, files: seq<(string, string)>, announced: seq<seq<Access>>,
                     name: string, user: string): Permission
    requires |ix.table| == HASH_SIZE
    decreases files
  {
    if files == [] || announced == [] then NO_PERM
    else if files[0].0 == name && N.FreeSlot(ix.catalog, 0) != -1 then PermissionOf(announced[0], user)
    else Announced(N.Catalog(ix, sock, files[0]), sock, files[1..], announced[1..], name, user)
  }

  /** What the user may do with the file after the event: the whole effect on the map from files and
      users to permissions. */
  function PermAfter(s: State, e: Event, name: string, user: string): Permission
    requires Sized(s)
  {
    var before, slot := Perm(s, name, user), N.Scan(s.ix.catalog, name, 0);
    match e
    case AddAccess(n, client, u, perm) =>
      if Owns(s, n, client) && Room(s, n, u) && n == name && u == user then perm else before
    case RemAccess(n, client, u) => if Owns(s, n, client) && n == name && u == user then NO_PERM else before
    case ApproveIt(id, client) =>
      var i := Settled(s, id, client);
      if i != -1 && s.q.slots[i].filename == name && s.q.slots[i].user == user && Room(s, name, user)
      then s.q.slots[i].perm else before
    case Ask(_, _, _) => before
    case DenyIt(_, _) => before
    case OnIndex(ie, announced) =>
      match ie
      case Find(_) => before
      case Create(_, _, _) => before
      case Delete(n, client) =>
        if n == name && N.MayChange(s.ix, slot, client) then NO_PERM else before
      case Move(n, folder, client, confirmed) =>
        if !(N.MayChange(s.ix, N.Scan(s.ix.catalog, n, 0), client) && confirmed) then before
        else if name == N.NewPath(n, folder) then Perm(s, n, user)
        else if name == n then NO_PERM else before
      case Register(sock, files) =>
        if slot != -1 then before else Announced(N.SetServer(s.ix, sock, true), sock, files, announced, name, user)
      case Disconnect(sock) =>
        if slot != -1 && s.ix.catalog[slot].server == sock && sock < |s.ix.servers| && s.ix.servers[sock]
        then NO_PERM else before
  }

  // ---------- the lists behave like that map ----------

  lemma SameSlot(catalog: seq<N.File>, n: string, name: string)
    requires N.Scan(catalog, n, 0) != -1 && n != name
    ensures N.Scan(catalog, n, 0) != N.Scan(catalog, name, 0)
  {
  }

  lemma GrantPerm(s: State, n: string, u: string, perm: Permission, ix: N.Index, q: Queue, name: string, user: string)
    requires Inv(s) && ix.catalog == s.ix.catalog && |ix.table| == HASH_SIZE && N.Scan(s.ix.catalog, n, 0) != -1
    ensures var slot := N.Scan(s.ix.catalog, n, 0);
            Perm(State(ix, s.lists[slot := Grant(s.lists[slot], u, perm)], q), name, user)
            == if n == name && u == user && Room(s, n, u) then perm else Perm(s, name, user)
  {
    var slot := N.Scan(s.ix.catalog, n, 0);
    GrantRefinesMap(s.lists[slot], u, perm, user);
    if n != name {
      SameSlot(s.ix.catalog, n, name);
    }
  }

  lemma RevokePerm(s: State, n: string, u: string, ix: N.Index, name: string, user: string)
    requires Inv(s) && ix.catalog == s.ix.catalog && |ix.table| == HASH_SIZE && N.Scan(s.ix.catalog, n, 0) != -1
    ensures var slot := N.Scan(s.ix.catalog, n, 0);
            Perm(State(ix, s.lists[slot := Revoke(s.lists[slot], u)], s.q), name, user)
            == if n == name && u == user then NO_PERM else Perm(s, name, user)
  {
    var slot := N.Scan(s.ix.catalog, n, 0);
    RevokeRefinesMap(s.lists[slot], u, user);
    if n != name {
      SameSlot(s.ix.catalog, n, name);
    }
  }

  /** The list operations, requests and answers. */
  lemma ListStepPerm(s: State, e: Event, name: string, user: string)
    requires Inv(s) && !e.OnIndex?
    ensures Perm(Step(s, e), name, user) == PermAfter(s, e, name, user)
  {
    match e
    case AddAccess(n, client, u, perm) =>
      LookupOk(s, n);
      if Owns(s, n, client) {
        GrantPerm(s, n, u, perm, N.Lookup(s.ix, n).0, s.q, name, user);
      }
    case RemAccess(n, client, u) =>
      LookupOk(s, n);
      if Owns(s, n, client) {
        RevokePerm(s, n, u, N.Lookup(s.ix, n).0, name, user);
      }
    case Ask(n, _, _) => LookupOk(s, n);
    case ApproveIt(id, client) =>
      var i := FindId(s.q.slots, id, 0);
      if i != -1 {
        var r := s.q.slots[i];
        LookupOk(s, r.filename);
        if Owns(s, r.filename, client) {
          var slot := N.Scan(s.ix.catalog, r.filename, 0);
          GrantPerm(s, r.filename, r.user, r.perm, N.Lookup(s.ix, r.filename).0,
                    Settle(s.q, id, HasRoom(s.lists[slot], r.user)), name, user);
        }
      }
    case DenyIt(id, _) =>
      var i := FindId(s.q.slots, id, 0);
      if i != -1 {
        LookupOk(s, s.q.slots[i].filename);
      }
  }

  /** Where a name is found after an index event other than a registration. */
  lemma ScanAfter(ix: N.Index, e: N.Event, name: string)
    requires N.Inv(ix) && N.Guard(ix, e) && !e.Register?
    ensures var slot, r := N.Scan(ix.catalog, name, 0), N.Scan(N.Step(ix, e).catalog, name, 0);
            match e
            case Create(n, _, confirmed) =>
              r == if N.GoesThrough(ix, n, confirmed) && n == name then N.FreeSlot(ix.catalog, 0) else slot
            case Delete(n, client) => r == if n == name && N.MayChange(ix, slot, client) then -1 else slot
            case Move(n, folder, client, confirmed) =>
              r == if !N.Moves(ix, n, client, confirmed) then slot
                   else if name == N.NewPath(n, folder) then N.Scan(ix.catalog, n, 0)
                   else if name == n then -1 else slot
            case Disconnect(sock) =>
              r == if slot != -1 && ix.catalog[slot].server == sock && sock < |ix.servers| && ix.servers[sock]
                   then -1 else slot
            case _ => r == slot
  {
    N.StepInv(ix, e);
    N.LookupIsScan(N.Step(ix, e), name);
    match e
    case Find(n) => N.LookupIsScan(ix, n);
    case Create(n, client, confirmed) =>
      N.LookupIsScan(ix, n);
      if N.GoesThrough(ix, n, confirmed) {
        N.CreateEntersName(ix, n, client, name);
      }
    case Delete(n, client) =>
      N.LookupIsScan(ix, n);
      if N.MayChange(ix, N.Scan(ix.catalog, n, 0), client) {
        N.DeleteRemovesName(ix, n, client, name);
      }
    case Move(n, folder, client, confirmed) =>
      N.LookupIsScan(ix, n);
      if N.Moves(ix, n, client, confirmed) {
        N.MoveMovesName(ix, n, folder, client, name);
      }
    case Disconnect(sock) =>
      if sock < |ix.servers| && ix.servers[sock] {
        N.DisconnectDelists(ix, sock, name);
      }
  }

  /** The index events but registration. */
  lemma IndexStepPerm(s: State, e: Event, name: string, user: string)
    requires Inv(s) && Guard(s, e) && e.OnIndex? && !e.request.Register?
    ensures Perm(Step(s, e), name, user) == PermAfter(s, e, name, user)
  {
    ScanAfter(s.ix, e.request, name);
    if e.request.Create? {
      LookupOk(s, e.request.name);
    }
  }

  /** Registration: known files keep their lists, new ones get the announced list. */
  lemma {:induction false} RegisterPerm(s: State, sock: nat, files: seq<(string, string)>,
                                        announced: seq<seq<Access>>, name: string, user: string)
    requires Inv(s) && N.NewNames(s.ix, sock, files) && |files| == |announced| && ListsOk(announced)
    ensures var ix' := N.CatalogAll(s.ix, sock, files);
            && |ix'.table| == HASH_SIZE && |ix'.catalog| == |s.lists|
            && Perm(State(ix', ListsAll(s.ix, s.lists, sock, files, announced), s.q), name, user)
               == if N.Scan(s.ix.catalog, name, 0) != -1 then Perm(s, name, user)
                  else Announced(s.ix, sock, files, announced, name, user)
    decreases files
  {
    if files != [] {
      var slot, ix1 := N.FreeSlot(s.ix.catalog, 0), N.Catalog(s.ix, sock, files[0]);
      var s1 := State(ix1, if slot == -1 then s.lists else s.lists[slot := announced[0]], s.q);
      N.CatalogKeepsInvIff(s.ix, sock, files[0]);
      if slot != -1 {
        N.ScanAfterEnter(s.ix, slot, N.File(files[0].0, sock, files[0].1), name);
      }
      RegisterPerm(s1, sock, files[1..], announced[1..], name, user);
    }
  }

  /** Every guarded event changes what a user may do with a file exactly as the map says. In particular
      a created file starts without permissions, whatever its slot held before, and a moved one takes
      them along. */
  lemma StepPerm(s: State, e: Event, name: string, user: string)
    requires Inv(s) && Guard(s, e)
    ensures Perm(Step(s, e), name, user) == PermAfter(s, e, name, user)
  {
    if !e.OnIndex? {
      ListStepPerm(s, e, name, user);
    } else if e.request.Register? {
      var ix1 := N.SetServer(s.ix, e.request.sock, true);
      RegisterPerm(s.(ix := ix1), e.request.sock, e.request.files, e.announced, name, user);
    } else {
      IndexStepPerm(s, e, name, user);
    }
  }

  // ---------- from the request to the permission ----------

  /** A request for a file waits for its owner as it was asked, and his approval gives the user exactly the
      permission asked for. */
  lemma AskThenApprove(s: State, name: string, user: string, perm: Permission, client: string, other: string, u: string)
    requires Inv(s) && Owns(s, name, client) && FirstResolved(s.q.slots, 0) != -1
    ensures var s1, request := Step(s, Ask(name, user, perm)), Pending(s.q.nextId, name, user, perm);
            && Waiting(s1.q) == Waiting(s.q) + {request}
            && (forall c :: request in Visible(s1.ix.catalog, s1.q.slots, c) <==> c == client)
            && Perm(Step(s1, ApproveIt(s.q.nextId, client)), other, u)
               == if other == name && u == user && Room(s, name, user) then perm else Perm(s, other, u)
  {
    var s1, i := Step(s, Ask(name, user, perm)), FirstResolved(s.q.slots, 0);
    StepInv(s, Ask(name, user, perm));
    LookupOk(s, name);
    SubmitAdds(s.q, true, name, user, perm);
    assert s1.q.slots[i] == Pending(s.q.nextId, name, user, perm);
    assert FindId(s1.q.slots, s.q.nextId, 0) == i;
    forall c
      ensures s1.q.slots[i] in Visible(s1.ix.catalog, s1.q.slots, c) <==> c == client
    {
      ShownIff(s1.ix.catalog, s1.q.slots, c, s1.q.slots[i]);
    }
    ListStepPerm(s1, ApproveIt(s.q.nextId, client), other, u);
  }

  /** The approval in place is this one. */
  lemma ApproveIsStep(s: State, id: int, client: string)
    requires Inv(s)
    ensures var s1, r := Step(s, ApproveIt(id, client)), Approve(s.q, s.ix.catalog, s.lists, id, client);
            s1.q == r.0 && s1.lists == r.1
    ensures OwnedSlot(s.q, s.ix.catalog, id, client) != -1 <==> Settled(s, id, client) != -1
  {
    var i := FindId(s.q.slots, id, 0);
    if i != -1 {
      LookupOk(s, s.q.slots[i].filename);
    }
  }

  /** The requests that wait after an event: a new one asked for, and without the one its owner settles. */
  lemma WaitingAfter(s: State, e: Event)
    requires Inv(s)
    ensures var before, after := Waiting(s.q), Waiting(Step(s, e).q);
            match e
            case Ask(name, user, perm) =>
              after == if N.Scan(s.ix.catalog, name, 0) != -1 && FirstResolved(s.q.slots, 0) != -1
                       then before + {Pending(s.q.nextId, name, user, perm)} else before
            case ApproveIt(id, client) =>
              var i := Settled(s, id, client);
              after == if i != -1 && Room(s, s.q.slots[i].filename, s.q.slots[i].user)
                       then before - {s.q.slots[i]} else before
            case DenyIt(id, client) =>
              var i := Settled(s, id, client);
              after == if i != -1 then before - {s.q.slots[i]} else before
            case _ => after == before
  {
    match e
    case Ask(name, user, perm) =>
      LookupOk(s, name);
      SubmitAdds(s.q, N.Scan(s.ix.catalog, name, 0) != -1, name, user, perm);
    case ApproveIt(id, client) =>
      var i := FindId(s.q.slots, id, 0);
      if i != -1 {
        LookupOk(s, s.q.slots[i].filename);
        SettleRemoves(s.q, i);
      }
    case DenyIt(id, client) =>
      var i := FindId(s.q.slots, id, 0);
      if i != -1 {
        LookupOk(s, s.q.slots[i].filename);
        SettleRemoves(s.q, i);
      }
    case _ =>
  }

  lemma SettleRemoves(q: Queue, i: nat)
    requires IdsUnique(q) && i < |q.slots| && q.slots[i].Pending?
    ensures Waiting(Settle(q, q.slots[i].id, true)) == Waiting(q) - {q.slots[i]}
    ensures Settle(q, q.slots[i].id, false) == q
  {
    SettleIsExact(q, i);
    var q' := Settle(q, q.slots[i].id, true);
    forall r
      ensures r in Waiting(q') <==> r in Waiting(q) && r != q.slots[i]
    {
      if r in Waiting(q) && r != q.slots[i] {
        var j :| 0 <= j < |q.slots| && q.slots[j] == r;
        assert q'.slots[j] == r;
      }
    }
  }

  // ---------- only the owner changes what others may do ----------

  /** The event is no request of the client, and does not end the storage server. */
  predicate Foreign(e: Event, client: string, server: nat) {
    match e
    case AddAccess(_, c, _, _) => c != client
    case RemAccess(_, c, _) => c != client
    case ApproveIt(_, c) => c != client
    case Ask(_, _, _) => true
    case DenyIt(_, _) => true
    case OnIndex(ie, _) =>
      match ie
      case Delete(_, c) => c != client
      case Move(_, _, c, _) => c != client
      case Disconnect(sock) => sock != server
      case _ => true
  }

  lemma {:induction false} RegisterKeepsFiles(ix: N.Index, sock: nat, files: seq<(string, string)>, slot: nat)
    requires |ix.table| == HASH_SIZE && slot < |ix.catalog| && ix.catalog[slot].File?
    ensures var r := N.CatalogAll(ix, sock, files);
            |r.catalog| == |ix.catalog| && r.catalog[slot] == ix.catalog[slot]
    decreases files
  {
    if files != [] {
      RegisterKeepsFiles(N.Catalog(ix, sock, files[0]), sock, files[1..], slot);
    }
  }

  /** A foreign event leaves the catalog entry of the file alone. */
  lemma EntryStays(s: State, e: Event, slot: nat)
    requires Inv(s) && Guard(s, e) && slot < |s.ix.catalog| && s.ix.catalog[slot].File?
    requires Foreign(e, s.ix.catalog[slot].owner, s.ix.catalog[slot].server)
    ensures Step(s, e).ix.catalog[slot] == s.ix.catalog[slot]
  {
    match e
    case AddAccess(n, _, _, _) => LookupOk(s, n);
    case RemAccess(n, _, _) => LookupOk(s, n);
    case Ask(n, _, _) => LookupOk(s, n);
    case ApproveIt(id, _) =>
      var i := FindId(s.q.slots, id, 0);
      if i != -1 { LookupOk(s, s.q.slots[i].filename); }
    case DenyIt(id, _) =>
      var i := FindId(s.q.slots, id, 0);
      if i != -1 { LookupOk(s, s.q.slots[i].filename); }
    case OnIndex(ie, _) =>
      match ie
      case Find(n) => LookupOk(s, n);
      case Create(n, _, _) => LookupOk(s, n);
      case Delete(n, _) => LookupOk(s, n);
      case Move(n, _, _, _) => LookupOk(s, n);
      case Register(sock, files) => RegisterKeepsFiles(N.SetServer(s.ix, sock, true), sock, files, slot);
      case Disconnect(sock) =>
        if sock < |s.ix.servers| && s.ix.servers[sock] {
          N.DelistFromCatalog(N.SetServer(s.ix, sock, false), sock, 0);
        }
  }

  /** What users may do with a file stays as it is over every run without a request of its owner, while
      its storage server is there. */
  lemma {:induction false} RightsStay(s: State, es: seq<Event>, name: string, user: string)
    requires Inv(s) && Guarded(s, es) && N.Scan(s.ix.catalog, name, 0) != -1
    requires var file := s.ix.catalog[N.Scan(s.ix.catalog, name, 0)];
             forall e | e in es :: Foreign(e, file.owner, file.server)
    ensures Perm(Run(s, es), name, user) == Perm(s, name, user)
    decreases es
  {
    if es != [] {
      var slot, s1 := N.Scan(s.ix.catalog, name, 0), Step(s, es[0]);
      assert es[0] in es;
      StepInv(s, es[0]);
      EntryStays(s, es[0], slot);
      N.PointsIsScan(s1.ix.catalog, name, slot);
      StepPerm(s, es[0], name, user);
      ForeignKeeps(s, es[0], name, user);
      RightsStay(s1, es[1..], name, user);
    }
  }

  lemma ForeignKeeps(s: State, e: Event, name: string, user: string)
    requires Inv(s) && Guard(s, e) && N.Scan(s.ix.catalog, name, 0) != -1
    requires var file := s.ix.catalog[N.Scan(s.ix.catalog, name, 0)]; Foreign(e, file.owner, file.server)
    ensures PermAfter(s, e, name, user) == Perm(s, name, user)
  {
    if e.OnIndex? && e.request.Move? && N.MayChange(s.ix, N.Scan(s.ix.catalog, e.request.name, 0), e.request.user) {
      assert N.Scan(s.ix.catalog, e.request.name, 0) != N.Scan(s.ix.catalog, name, 0);
    }
  }

  // ---------- in place ----------

  /** CREATE with the access list of the slot emptied. */
  method HandleReqCreate(server: NameServer.Server, lists: seq<AccessList>, name: string, user: string, confirmed: bool)
    requires server.Valid() && N.Inv(server.State()) && ListPerFile(lists, server.catalog.Length)
    modifies server.catalog, server.table, server.cache, lists
    ensures ListPerFile(lists, server.catalog.Length)
    ensures server.State() == N.HandleCreate(old(server.State()), name, user, confirmed)
    ensures ListsOf(lists) == ListsAfter(State(old(server.State()), old(ListsOf(lists)), Queue([], 0)),
                                         N.Create(name, user, confirmed), [])
  {
    var slot := server.HandleReqCreate(name, user, confirmed);
    if slot != -1 {
      ClearAt(lists, slot);
    }
  }

  /** The file's slot, if the client owns it. */
  method FindOwn(server: NameServer.Server, name: string, client: string) returns (slot: int)
    requires server.Valid() && N.Inv(server.State())
    modifies server.cache
    ensures N.Inv(server.State()) && server.State() == N.Lookup(old(server.State()), name).0
    ensures slot == OwnSlot(old(server.State()), N.Lookup(old(server.State()), name).1, client)
  {
    N.LookupIsScan(server.State(), name);
    slot := server.FindFileSlot(name);
    if slot != -1 && server.catalog[slot].owner != client {
      slot := -1;
    }
  }

  /** ADDACCESS: by the owner, in the list of the file's slot. */
  method HandleAddAccess(server: NameServer.Server, lists: seq<AccessList>, name: string, client: string,
                         user: string, perm: Permission, ghost q: Queue) returns (ok: bool)
    requires server.Valid() && N.Inv(server.State()) && ListPerFile(lists, server.catalog.Length)
    modifies server.cache, lists, Arrays(lists)
    ensures ListPerFile(lists, server.catalog.Length) && N.Inv(server.State())
    ensures State(server.State(), ListsOf(lists), q)
         == Step(State(old(server.State()), old(ListsOf(lists)), q), AddAccess(name, client, user, perm))
    ensures var s := State(old(server.State()), old(ListsOf(lists)), q);
            ok <==> Owns(s, name, client) && Room(s, name, user)
  {
    N.LookupIsScan(server.State(), name);
    var slot := FindOwn(server, name, client);
    if slot == -1 {
      return false;
    }
    ok := GrantIn(lists, slot, user, perm);
  }

  /** REMACCESS: by the owner, from the list of the file's slot. */
  method HandleRemAccess(server: NameServer.Server, lists: seq<AccessList>, name: string, client: string,
                         user: string, ghost q: Queue) returns (ok: bool)
    requires server.Valid() && N.Inv(server.State()) && ListPerFile(lists, server.catalog.Length)
    modifies server.cache, lists, Arrays(lists)
    ensures ListPerFile(lists, server.catalog.Length) && N.Inv(server.State())
    ensures State(server.State(), ListsOf(lists), q)
         == Step(State(old(server.State()), old(ListsOf(lists)), q), RemAccess(name, client, user))
    ensures ok <==> Owns(State(old(server.State()), old(ListsOf(lists)), q), name, client)
  {
    N.LookupIsScan(server.State(), name);
    var slot := FindOwn(server, name, client);
    if slot == -1 {
      return false;
    }
    RevokeIn(lists, slot, user);
    ok := true;
  }

  /** One of the lists is emptied. */
  method ClearAt(lists: seq<AccessList>, slot: nat)
    requires ListPerFile(lists, |lists|) && slot < |lists|
    modifies lists[slot]
    ensures ListPerFile(lists, |lists|) && ListsOf(lists) == old(ListsOf(lists))[slot := []]
  {
    lists[slot].Clear();
  }

  /** A revocation in one of the lists. */
  method RevokeIn(lists: seq<AccessList>, slot: nat, user: string)
    requires ListPerFile(lists, |lists|) && slot < |lists|
    modifies lists[slot], lists[slot].list
    ensures ListPerFile(lists, |lists|)
    ensures ListsOf(lists) == old(ListsOf(lists))[slot := Revoke(old(ListsOf(lists))[slot], user)]
  {
    var removed := lists[slot].Remove(user);
  }
}
