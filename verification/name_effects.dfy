/** What the name server's requests do to the files of the catalog, its storage servers and its cache. */
module NameEffects {
  import opened Djb2
  import opened NameIndex

  // ---------- owners and storage servers ----------

  /** Whoever creates a file owns it, and nobody else: only he may change it from then on. */
  lemma CreatorOwns(ix: Index, name: string, user: string, u: string)
    requires Inv(ix) && GoesThrough(ix, name, true) && FreeSlot(ix.catalog, 0) != -1
    ensures var ix' := HandleCreate(ix, name, user, true);
            MayChange(ix', Lookup(ix', name).1, u) <==> u == user
  {
    LookupIsScan(ix, name);
    CreateEntersName(ix, name, user, name);
  }

  /** A created file is on the first active storage server: it goes when that one disconnects, and stays
      when another does. */
  lemma CreatedOnFirst(ix: Index, name: string, user: string, sock: nat)
    requires Inv(ix) && GoesThrough(ix, name, true) && FreeSlot(ix.catalog, 0) != -1
    requires sock < |ix.servers| && ix.servers[sock]
    ensures var ix' := HandleDisconnect(HandleCreate(ix, name, user, true), sock);
            Lookup(ix', name).1 == -1 <==> forall k | 0 <= k < sock :: !ix.servers[k]
  {
    LookupIsScan(ix, name);
    CreateEntersName(ix, name, user, name);
    StepInv(ix, Create(name, user, true));
    var ix' := HandleCreate(ix, name, user, true);
    LookupIsScan(ix', name);
    DisconnectDelists(ix', sock, name);
  }

  /** A new path is the folder, a slash, and what follows the last slash of the old name. */
  lemma NewPathIs(name: string, folder: string) returns (n: nat)
    ensures n <= |name| && '/' !in name[n..] && (n > 0 ==> name[n - 1] == '/')
    ensures |NewPath(name, folder)| == |folder| + 1 + |name[n..]|
    ensures NewPath(name, folder)[..|folder|] == folder && NewPath(name, folder)[|folder|] == '/'
    ensures NewPath(name, folder)[|folder| + 1..] == name[n..]
  {
    n := BaseNameIsLastPart(name);
  }

  /** A moved file keeps its owner and its storage server. */
  lemma MoveKeepsOwner(ix: Index, name: string, folder: string, user: string)
    requires Inv(ix) && Guard(ix, Move(name, folder, user, true)) && Moves(ix, name, user, true)
    ensures var ix' := HandleMove(ix, name, folder, user, true);
            var before, after := Scan(ix.catalog, name, 0), Lookup(ix', NewPath(name, folder)).1;
            && 0 <= after < |ix'.catalog| && ix'.catalog[after].File?
            && ix'.catalog[after].owner == ix.catalog[before].owner == user
            && ix'.catalog[after].server == ix.catalog[before].server
  {
    LookupIsScan(ix, name);
    MoveMovesName(ix, name, folder, user, NewPath(name, folder));
  }

  /** A file is deleted exactly at the request of its owner while its storage server is active, and moved
      exactly when that one also confirms. */
  lemma ChangedIff(ix: Index, name: string, user: string, folder: string, confirmed: bool)
    requires Inv(ix) && Scan(ix.catalog, name, 0) != -1
    requires NewPath(name, folder) != name && Guard(ix, Move(name, folder, user, confirmed))
    ensures var file := ix.catalog[Scan(ix.catalog, name, 0)];
            var may := file.owner == user && file.server < |ix.servers| && ix.servers[file.server];
            && (Lookup(HandleDelete(ix, name, user), name).1 == -1 <==> may)
            && (Lookup(HandleMove(ix, name, folder, user, confirmed), name).1 == -1 <==> may && confirmed)
  {
    LookupIsScan(ix, name);
    StepInv(ix, Delete(name, user));
    StepInv(ix, Move(name, folder, user, confirmed));
    LookupIsScan(HandleDelete(ix, name, user), name);
    LookupIsScan(HandleMove(ix, name, folder, user, confirmed), name);
    if MayChange(ix, Scan(ix.catalog, name, 0), user) {
      DeleteRemovesName(ix, name, user, name);
      if confirmed {
        MoveMovesName(ix, name, folder, user, name);
      }
    }
  }

  /** The files a request leaves alone. */
  predicate Untouched(file: File, e: Event)
    requires file.File?
  {
    match e
    case Find(_) => true
    case Create(_, _, _) => true
    case Delete(name, _) => name != file.name
    case Move(name, _, _, _) => name != file.name
    case Register(_, _) => true
    case Disconnect(sock) => sock != file.server
  }

  lemma {:induction false} CatalogAllKeeps(ix: Index, sock: nat, files: seq<(string, string)>, j: nat)
    requires |ix.table| == HASH_SIZE && j < |ix.catalog| && ix.catalog[j].File?
    ensures var r := CatalogAll(ix, sock, files); |r.catalog| == |ix.catalog| && r.catalog[j] == ix.catalog[j]
    decreases files
  {
    if files != [] {
      CatalogAllKeeps(Catalog(ix, sock, files[0]), sock, files[1..], j);
    }
  }

  /** Every request leaves the files it is not about as they are, in their slots. */
  lemma OtherFilesStay(ix: Index, e: Event, j: nat)
    requires Inv(ix) && j < |ix.catalog| && ix.catalog[j].File? && Untouched(ix.catalog[j], e)
    ensures Step(ix, e).catalog[j] == ix.catalog[j]
  {
    match e
    case Find(name) => LookupIsScan(ix, name);
    case Create(name, _, _) => LookupIsScan(ix, name);
    case Delete(name, _) => LookupIsScan(ix, name);
    case Move(name, _, _, _) => LookupIsScan(ix, name);
    case Register(sock, files) => CatalogAllKeeps(SetServer(ix, sock, true), sock, files, j);
    case Disconnect(sock) =>
      if sock < |ix.servers| && ix.servers[sock] {
        DelistFromCatalog(SetServer(ix, sock, false), sock, 0);
      }
  }

  /** The file is announced under that owner. */
  ghost predicate IsAnnounced(files: seq<(string, string)>, name: string, owner: string) {
    (name, owner) in files
  }

  /** A registration: a file that was not known is found afterwards exactly with the owner announced for
      it, on that storage server; and while slots are left, all announced files are found. */
  lemma {:induction false} RegisteredAre(ix: Index, sock: nat, files: seq<(string, string)>, name: string)
    requires Inv(ix) && NewNames(ix, sock, files) && Scan(ix.catalog, name, 0) == -1
    ensures var r := CatalogAll(ix, sock, files);
            var slot := Scan(r.catalog, name, 0);
            && |r.table| == HASH_SIZE
            && (slot != -1 ==> r.catalog[slot].server == sock && IsAnnounced(files, name, r.catalog[slot].owner))
            && (FreeSlot(r.catalog, 0) != -1 && (exists f :: f in files && f.0 == name) ==> slot != -1)
    decreases files
  {
    if files != [] {
      var ix1, slot := Catalog(ix, sock, files[0]), FreeSlot(ix.catalog, 0);
      var rest := files[1..];
      CatalogKeepsInvIff(ix, sock, files[0]);
      if slot == -1 {
        RegisteredAre(ix1, sock, rest, name);
        FullStays(ix1, sock, rest);
      } else {
        ScanAfterEnter(ix, slot, File(files[0].0, sock, files[0].1), name);
        if files[0].0 == name {
          CatalogAllKeeps(ix1, sock, rest, slot);
          CatalogAllInv(ix1, sock, rest);
          PointsIsScan(CatalogAll(ix1, sock, rest).catalog, name, slot);
          assert files[0] in files;
        } else {
          RegisteredAre(ix1, sock, rest, name);
          assert forall f | f in files :: f == files[0] || f in rest;
        }
      }
    }
  }

  lemma {:induction false} FullStays(ix: Index, sock: nat, files: seq<(string, string)>)
    requires |ix.table| == HASH_SIZE && FreeSlot(ix.catalog, 0) == -1
    ensures FreeSlot(CatalogAll(ix, sock, files).catalog, 0) == -1
    decreases files
  {
    if files != [] {
      FullStays(Catalog(ix, sock, files[0]), sock, files[1..]);
    }
  }

  /** A storage server is active from its registration until it disconnects, and nothing else changes that. */
  lemma ServersAfter(ix: Index, e: Event, k: nat)
    requires |ix.table| == HASH_SIZE && k < |ix.servers|
    ensures |Step(ix, e).servers| == |ix.servers|
    ensures Step(ix, e).servers[k] <==> e == Register(k, if e.Register? then e.files else [])
                                        || (ix.servers[k] && e != Disconnect(k))
  {
    match e
    case Register(sock, files) => CatalogAllServers(SetServer(ix, sock, true), sock, files);
    case Disconnect(sock) => DelistFromServers(SetServer(ix, sock, false), sock, 0);
    case _ =>
  }

  lemma {:induction false} CatalogAllServers(ix: Index, sock: nat, files: seq<(string, string)>)
    requires |ix.table| == HASH_SIZE
    ensures CatalogAll(ix, sock, files).servers == ix.servers
    decreases files
  {
    if files != [] {
      CatalogAllServers(Catalog(ix, sock, files[0]), sock, files[1..]);
    }
  }

  lemma {:induction false} DelistFromServers(ix: Index, sock: nat, i: nat)
    requires |ix.table| == HASH_SIZE && i <= |ix.catalog|
    ensures DelistFrom(ix, sock, i).servers == ix.servers
    decreases |ix.catalog| - i
  {
    if i < |ix.catalog| {
      DelistFromServers(if ix.catalog[i].File? && ix.catalog[i].server == sock then Delist(ix, i) else ix, sock, i + 1);
    }
  }

  // ---------- the cache ----------

  function Finds(names: seq<string>): seq<Event> {
    if names == [] then [] else [Find(names[0])] + Finds(names[1..])
  }

  /** The names with their slots, the last one first. */
  function Latest(catalog: seq<File>, names: seq<string>): seq<CacheSlot> {
    if names == [] then [] else Latest(catalog, names[1..]) + [Cached(names[0], Scan(catalog, names[0], 0))]
  }

  /** Known names that are not cached. */
  predicate Misses(ix: Index, names: seq<string>) {
    && (forall i | 0 <= i < |names| :: Scan(ix.catalog, names[i], 0) != -1 && FindCached(ix.cache, names[i], 0) == -1)
    && (forall i, j | 0 <= i < j < |names| :: names[i] != names[j])
  }

  lemma MissEnters(ix: Index, name: string)
    requires Inv(ix) && Scan(ix.catalog, name, 0) != -1 && FindCached(ix.cache, name, 0) == -1
    ensures Inv(Lookup(ix, name).0) && Lookup(ix, name).0.(cache := ix.cache) == ix
    ensures Lookup(ix, name).0.cache == ([Cached(name, Scan(ix.catalog, name, 0))] + ix.cache)[..|ix.cache|]
  {
    LookupIsScan(ix, name);
    NamedIsInChain(ix.catalog, ix.table, Scan(ix.catalog, name, 0));
  }

  /** A miss enters its own name only. */
  lemma RestMisses(ix: Index, names: seq<string>)
    requires Inv(ix) && Misses(ix, names) && names != []
    ensures var ix1, first := Lookup(ix, names[0]).0, Cached(names[0], Scan(ix.catalog, names[0], 0));
            && Inv(ix1) && ix1.(cache := ix.cache) == ix && Misses(ix1, names[1..])
            && ix1.cache == ([first] + ix.cache)[..|ix.cache|]
  {
    var ix1, first := Lookup(ix, names[0]).0, Cached(names[0], Scan(ix.catalog, names[0], 0));
    MissEnters(ix, names[0]);
    forall i | 0 <= i < |names[1..]|
      ensures FindCached(ix1.cache, names[1..][i], 0) == -1
    {
      assert names[1..][i] == names[i + 1];
      assert forall c | 0 <= c < |ix1.cache| :: ix1.cache[c] == (if c == 0 then first else ix.cache[c - 1]);
    }
  }

  /** The cache is first-in first-out: after lookups of names it does not hold, it has those names, the last
      one first, and behind them the older entries as far as there is room. */
  lemma {:induction false} CacheIsFifo(ix: Index, names: seq<string>)
    requires Inv(ix) && Misses(ix, names)
    ensures Run(ix, Finds(names)).cache == (Latest(ix.catalog, names) + ix.cache)[..|ix.cache|]
    decreases names
  {
    if names == [] {
      assert [] + ix.cache == ix.cache;
    } else {
      var ix1 := Lookup(ix, names[0]).0;
      var first := Cached(names[0], Scan(ix.catalog, names[0], 0));
      RestMisses(ix, names);
      assert Finds(names)[1..] == Finds(names[1..]);
      CacheIsFifo(ix1, names[1..]);
      Overflow(Latest(ix.catalog, names[1..]), first, ix.cache);
    }
  }

  lemma Overflow(latest: seq<CacheSlot>, first: CacheSlot, cache: seq<CacheSlot>)
    ensures (latest + ([first] + cache)[..|cache|])[..|cache|] == (latest + [first] + cache)[..|cache|]
  {
  }

  /** A hit does not reorder the cache, and a name that is not known does not enter it. */
  lemma HitChangesNothing(ix: Index, name: string)
    requires Inv(ix) && (FindCached(ix.cache, name, 0) != -1 || Scan(ix.catalog, name, 0) == -1)
    ensures Lookup(ix, name).0 == ix
  {
    LookupIsScan(ix, name);
    var e := FindEntry(ix.table[Bucket(name)], name, 0);
    assert e != -1 ==> InChain(ix.table, Bucket(name), e);
  }

  /** Forgetting a name leaves all other names cached. */
  lemma InvalidateOnly(cache: seq<CacheSlot>, name: string, other: string)
    ensures |Invalidate(cache, name)| == |cache| && FindCached(Invalidate(cache, name), name, 0) == -1
    ensures name != other ==> FindCached(Invalidate(cache, name), other, 0) == FindCached(cache, other, 0)
  {
    var c, r := FindCached(cache, other, 0), FindCached(Invalidate(cache, name), other, 0);
    if name != other {
      assert forall i | 0 <= i < |cache| :: Hits(Invalidate(cache, name)[i], other) == Hits(cache[i], other);
      assert c != -1 ==> Hits(Invalidate(cache, name)[c], other);
      assert r != -1 ==> Hits(cache[r], other);
    }
  }
}
