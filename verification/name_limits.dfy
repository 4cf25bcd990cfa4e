/** What a CREATE on a full catalog does to the lookup index, and that a catalog can be full. */
module NameLimits {
  import opened Djb2
  import opened NameIndex

  /** The index of a full catalog after a CREATE of a new name. */
  ghost predicate Overfull(ix: Index, name: string, ix1: Index) {
    && Inv(ix) && Scan(ix.catalog, name, 0) == -1
    && ix1.catalog == ix.catalog && ix1.servers == ix.servers && |ix1.cache| == |ix.cache|
    && CacheSound(ix.catalog, ix1.cache)
    && ix1.table == AddToMap(ix.table, name, -1)
  }

  /** The lost name does not keep other files from being found ... */
  lemma OverfullLookup(ix: Index, name: string, ix1: Index, other: string)
    requires Overfull(ix, name, ix1) && Scan(ix.catalog, other, 0) != -1
    ensures Lookup(ix1, other).1 == Scan(ix.catalog, other, 0)
  {
    var b := Bucket(other);
    NamedIsInChain(ix.catalog, ix.table, Scan(ix.catalog, other, 0));
    var c, e := FindCached(ix1.cache, other, 0), FindEntry(ix1.table[b], other, 0);
    if c != -1 {
      PointsIsScan(ix.catalog, other, ix1.cache[c].slot);
    } else {
      AddedToMap(ix.table, name, -1);
      assert e != -1 && InChain(ix1.table, b, e);
      assert InChain(ix.table, b, if b == Bucket(name) then e - 1 else e);
      PointsIsScan(ix.catalog, other, ix1.table[b][e].slot);
    }
  }

  lemma RemoveKeepsFront(table: seq<seq<Entry>>, b: nat, other: string)
    requires |table| == HASH_SIZE && b < |table| && table[b] != [] && table[b][0].key != other
    ensures RemoveFromMap(table, other)[b] != [] && RemoveFromMap(table, other)[b][0] == table[b][0]
  {
    var i := FindEntry(table[Bucket(other)], other, 0);
    assert b == Bucket(other) && i != -1 ==> i > 0;
  }

  lemma NotCached(catalog: seq<File>, cache: seq<CacheSlot>, name: string, other: string, slot: int)
    requires CacheSound(catalog, cache) && Scan(catalog, name, 0) == -1 && name != other
    ensures FindCached(cache, name, 0) == -1
    ensures FindCached(Invalidate(cache, other), name, 0) == -1
    ensures FindCached(Invalidate(AddToCache(cache, other, slot), other), name, 0) == -1
  {
    assert forall c | 0 <= c < |cache| :: !Hits(cache[c], name);
    var cache' := AddToCache(cache, other, slot);
    assert forall c | 0 <= c < |cache'| :: !Hits(cache'[c], name);
  }

  /** ... and deleted. */
  lemma OverfullDelete(ix: Index, name: string, ix1: Index, other: string, owner: string)
    requires Overfull(ix, name, ix1) && MayChange(ix, Scan(ix.catalog, other, 0), owner)
    ensures var ix2, slot := HandleDelete(ix1, other, owner), Scan(ix.catalog, other, 0);
            && |ix2.table| == HASH_SIZE && ix2.servers == ix.servers && |ix2.cache| == |ix.cache|
            && ix2.catalog == ix.catalog[slot := Free]
            && ix2.table[Bucket(name)] != [] && ix2.table[Bucket(name)][0] == Entry(name, -1)
            && FindCached(ix2.cache, name, 0) == -1
  {
    var slot, found := Scan(ix.catalog, other, 0), Lookup(ix1, other).0;
    OverfullLookup(ix, name, ix1, other);
    assert found.catalog == ix.catalog && found.table == ix1.table && found.servers == ix.servers;
    assert HandleDelete(ix1, other, owner) == Delist(found, slot);
    RemoveKeepsFront(ix1.table, Bucket(name), other);
    var e := FindEntry(ix1.table[Bucket(other)], other, 0);
    NotCached(ix.catalog, ix1.cache, name, other, if e == -1 then 0 else ix1.table[Bucket(other)][e].slot);
  }

  /** The name is mapped to no slot: a CREATE finds that entry, and remembers it in the cache. */
  lemma HiddenCreate(ix: Index, name: string, user: string)
    requires |ix.table| == HASH_SIZE && ix.cache != []
    requires ix.table[Bucket(name)] != [] && ix.table[Bucket(name)][0] == Entry(name, -1)
    requires FindCached(ix.cache, name, 0) == -1 && FirstServer(ix.servers, 0) != -1 && FreeSlot(ix.catalog, 0) != -1
    ensures var ix' := HandleCreate(ix, name, user, true);
            Lookup(ix', name).1 == -1 && Scan(ix'.catalog, name, 0) != -1
  {
    var slot, ix1, ix' := FreeSlot(ix.catalog, 0), Lookup(ix, name).0, HandleCreate(ix, name, user, true);
    assert ix1.cache == [Cached(name, -1)] + ix.cache[..|ix.cache| - 1];
    assert Hits(ix1.cache[0], name) && FindCached(ix1.cache, name, 0) == 0;
    assert ix'.catalog == ix.catalog[slot := File(name, FirstServer(ix.servers, 0), user)] && ix'.cache == ix1.cache;
    assert Named(ix'.catalog[slot], name);
  }

  /** Why the guard is there: a CREATE on a full catalog leaves a name behind that no later CREATE
      repairs. Once a file is deleted and the name created again, the scan finds it, the lookup does
      not. */
  lemma FullCatalogHidesName(ix: Index, name: string, user: string, other: string, owner: string)
    requires Inv(ix) && ix.cache != []
    requires GoesThrough(ix, name, true) && FreeSlot(ix.catalog, 0) == -1
    requires MayChange(ix, Scan(ix.catalog, other, 0), owner)
    ensures var ix1 := Step(ix, Create(name, user, true));
            var ix' := Step(Step(ix1, Delete(other, owner)), Create(name, user, true));
            Lookup(ix', name).1 == -1 && Scan(ix'.catalog, name, 0) != -1
  {
    LookupIsScan(ix, name);
    var ix1 := HandleCreate(ix, name, user, true);
    OverfullDelete(ix, name, ix1, other, owner);
    var ix2 := HandleDelete(ix1, other, owner);
    assert ix2.catalog[Scan(ix.catalog, other, 0)].Free?;
    HiddenCreate(ix2, name, user);
  }

  // ---------- a full catalog is reached ----------

  /** The first `n` slots are active, the others free. */
  predicate FilledUpTo(catalog: seq<File>, n: nat) {
    forall j | 0 <= j < |catalog| :: catalog[j].File? <==> j < n
  }

  /** No announced name is known or announced twice. */
  predicate AllNew(catalog: seq<File>, files: seq<(string, string)>) {
    && (forall k | 0 <= k < |files| :: Scan(catalog, files[k].0, 0) == -1)
    && (forall k, l | 0 <= k < l < |files| :: files[k].0 != files[l].0)
  }

  /** Entering the first file leaves the others new. */
  lemma RestIsNew(ix: Index, sock: nat, n: nat, files: seq<(string, string)>)
    requires Inv(ix) && FilledUpTo(ix.catalog, n) && n < |ix.catalog| && AllNew(ix.catalog, files) && files != []
    ensures FreeSlot(ix.catalog, 0) == n
    ensures var ix1 := Catalog(ix, sock, files[0]);
            Inv(ix1) && FilledUpTo(ix1.catalog, n + 1) && AllNew(ix1.catalog, files[1..])
  {
    var file, ix1 := File(files[0].0, sock, files[0].1), Catalog(ix, sock, files[0]);
    assert ix.catalog[n].Free? && FreeSlot(ix.catalog, 0) == n;
    EnterInv(ix, n, file);
    forall k | 0 <= k < |files[1..]|
      ensures Scan(ix1.catalog, files[1..][k].0, 0) == -1
    {
      ScanAfterEnter(ix, n, file, files[k + 1].0);
    }
  }

  /** A registration of as many new files as there are free slots fills the catalog. */
  lemma {:induction false} RegisterFills(ix: Index, sock: nat, n: nat, files: seq<(string, string)>)
    requires Inv(ix) && FilledUpTo(ix.catalog, n) && n + |files| == |ix.catalog| && AllNew(ix.catalog, files)
    ensures NewNames(ix, sock, files)
    ensures var r := CatalogAll(ix, sock, files);
            && r.servers == ix.servers && r.cache == ix.cache && |r.catalog| == |ix.catalog|
            && forall j | 0 <= j < |ix.catalog| ::
                 r.catalog[j] == if j < n then ix.catalog[j] else File(files[j - n].0, sock, files[j - n].1)
    decreases files
  {
    if files != [] {
      RestIsNew(ix, sock, n, files);
      RegisterFills(Catalog(ix, sock, files[0]), sock, n + 1, files[1..]);
    }
  }

  /** A two-letter name for every catalog slot. */
  function Name(i: nat): string
    requires i < MAX_FILES_IN_SYSTEM
  {
    [(65 + i / 32) as char, (65 + i % 32) as char]
  }

  function AllFiles(owner: string): seq<(string, string)> {
    seq(MAX_FILES_IN_SYSTEM, i requires 0 <= i < MAX_FILES_IN_SYSTEM => (Name(i), owner))
  }

  function Code(name: string): int
    requires |name| == 2
  {
    32 * ((name[0] as int) - 65) + ((name[1] as int) - 65)
  }

  lemma CodeOfName(i: nat)
    requires i < MAX_FILES_IN_SYSTEM
    ensures Code(Name(i)) == i
  {
  }

  lemma AllFilesNew(catalog: seq<File>, owner: string)
    requires FilledUpTo(catalog, 0)
    ensures AllNew(catalog, AllFiles(owner))
  {
    var files := AllFiles(owner);
    forall k, l | 0 <= k < l < |files|
      ensures files[k].0 != files[l].0
    {
      CodeOfName(k);
      CodeOfName(l);
    }
  }

  /** The registration of one storage server with a file for every slot, on an empty catalog. */
  lemma RegisterAll(ix: Index, owner: string)
    requires Inv(ix) && FilledUpTo(ix.catalog, 0) && |ix.catalog| == MAX_FILES_IN_SYSTEM && |ix.servers| > 0
    ensures var e := Register(0, AllFiles(owner));
            var r := Step(ix, e);
            && Guard(ix, e) && Inv(r) && FreeSlot(r.catalog, 0) == -1 && FirstServer(r.servers, 0) == 0
            && r.cache == ix.cache && |r.servers| == |ix.servers| && |r.catalog| == MAX_FILES_IN_SYSTEM
            && forall j | 0 <= j < MAX_FILES_IN_SYSTEM :: r.catalog[j] == File(Name(j), 0, owner)
  {
    AllFilesNew(ix.catalog, owner);
    RegisterFills(SetServer(ix, 0, true), 0, 0, AllFiles(owner));
    StepInv(ix, Register(0, AllFiles(owner)));
  }

  /** On any index with empty catalog and a cache, four requests leave a file that the lookup does not
      find, and only the first CREATE is against the guard. */
  lemma NameGetsHidden(ix0: Index, owner: string)
    requires Inv(ix0) && FilledUpTo(ix0.catalog, 0) && |ix0.catalog| == MAX_FILES_IN_SYSTEM
    requires |ix0.servers| > 0 && ix0.cache != []
    ensures var e := Register(0, AllFiles(owner));
            var ix := Step(ix0, e);
            var ix1 := Step(ix, Create("x", owner, true));
            var ix' := Step(Step(ix1, Delete(Name(0), owner)), Create("x", owner, true));
            && Guard(ix0, e) && !Guard(ix, Create("x", owner, true))
            && Lookup(ix', "x").1 == -1 && Scan(ix'.catalog, "x", 0) != -1
  {
    RegisterAll(ix0, owner);
    var ix := Step(ix0, Register(0, AllFiles(owner)));
    assert ix.catalog[0] == File(Name(0), 0, owner);
    PointsIsScan(ix.catalog, Name(0), 0);
    assert forall j | 0 <= j < |ix.catalog| :: !Named(ix.catalog[j], "x");
    FullCatalogHidesName(ix, "x", owner, Name(0), owner);
  }

  /** So it happens from start-up. */
  lemma NameIsHidden(owner: string)
    ensures |Init().table| == HASH_SIZE
    ensures var e := Register(0, AllFiles(owner));
            var ix := Step(Init(), e);
            var ix1 := Step(ix, Create("x", owner, true));
            var ix' := Step(Step(ix1, Delete(Name(0), owner)), Create("x", owner, true));
            && Guard(Init(), e) && !Guard(ix, Create("x", owner, true))
            && Lookup(ix', "x").1 == -1 && Scan(ix'.catalog, "x", 0) != -1
  {
    InitInv();
    NameGetsHidden(Init(), owner);
  }
}
