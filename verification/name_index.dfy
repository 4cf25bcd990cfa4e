/** The name server's lookup index: a small cache before a chained hash map before the catalog. */
module NameIndex {
  import opened Djb2

  datatype File = Free | File(name: string, server: nat, owner: string)

  /** A node of a hash chain. */
  datatype Entry = Entry(key: string, slot: int)

  datatype CacheSlot = Invalid | Cached(key: string, slot: int)

  /** `servers[k]` says whether socket `k` is an active storage server. */
  datatype Index = Index(catalog: seq<File>, table: seq<seq<Entry>>, cache: seq<CacheSlot>, servers: seq<bool>)

  // ---------- scans ----------

  predicate Named(file: File, name: string) {
    file.File? && file.name == name
  }

  /** The linear scan the index stands for: the first active catalog slot with the name, or -1. */
  function Scan(catalog: seq<File>, name: string, i: nat): (r: int)
    requires i <= |catalog|
    ensures -1 <= r < |catalog| && (0 <= r ==> i <= r && Named(catalog[r], name))
    ensures forall j | i <= j < (if r == -1 then |catalog| else r) :: !Named(catalog[j], name)
    decreases |catalog| - i
  {
    if i == |catalog| then -1 else if Named(catalog[i], name) then i else Scan(catalog, name, i + 1)
  }

  function FreeSlot(catalog: seq<File>, i: nat): (r: int)
    requires i <= |catalog|
    ensures -1 <= r < |catalog| && (0 <= r ==> i <= r && catalog[r].Free?)
    ensures forall j | i <= j < (if r == -1 then |catalog| else r) :: !catalog[j].Free?
    decreases |catalog| - i
  {
    if i == |catalog| then -1 else if catalog[i].Free? then i else FreeSlot(catalog, i + 1)
  }

  function FirstServer(servers: seq<bool>, i: nat): (r: int)
    requires i <= |servers|
    ensures -1 <= r < |servers| && (0 <= r ==> i <= r && servers[r])
    ensures forall j | i <= j < (if r == -1 then |servers| else r) :: !servers[j]
    decreases |servers| - i
  {
    if i == |servers| then -1 else if servers[i] then i else FirstServer(servers, i + 1)
  }

  predicate Hits(slot: CacheSlot, name: string) {
    slot.Cached? && slot.key == name
  }

  function FindCached(cache: seq<CacheSlot>, name: string, i: nat): (r: int)
    requires i <= |cache|
    ensures -1 <= r < |cache| && (0 <= r ==> i <= r && Hits(cache[r], name))
    ensures forall j | i <= j < (if r == -1 then |cache| else r) :: !Hits(cache[j], name)
    decreases |cache| - i
  {
    if i == |cache| then -1 else if Hits(cache[i], name) then i else FindCached(cache, name, i + 1)
  }

  function FindEntry(chain: seq<Entry>, name: string, i: nat): (r: int)
    requires i <= |chain|
    ensures -1 <= r < |chain| && (0 <= r ==> i <= r && chain[r].key == name)
    ensures forall j | i <= j < (if r == -1 then |chain| else r) :: chain[j].key != name
    decreases |chain| - i
  {
    if i == |chain| then -1 else if chain[i].key == name then i else FindEntry(chain, name, i + 1)
  }

  // ---------- cache and hash map ----------

  /** Shift the entries right and put the new one in front, unless the name is there already. */
  function AddToCache(cache: seq<CacheSlot>, name: string, slot: int): seq<CacheSlot> {
    if FindCached(cache, name, 0) != -1 || cache == [] then cache
    else [Cached(name, slot)] + cache[..|cache| - 1]
  }

  function Invalidate(cache: seq<CacheSlot>, name: string): seq<CacheSlot> {
    seq(|cache|, i requires 0 <= i < |cache| => if Hits(cache[i], name) then Invalid else cache[i])
  }

  function AddToMap(table: seq<seq<Entry>>, name: string, slot: int): seq<seq<Entry>>
    requires |table| == HASH_SIZE
  {
    table[Bucket(name) := [Entry(name, slot)] + table[Bucket(name)]]
  }

  function RemoveFromMap(table: seq<seq<Entry>>, name: string): seq<seq<Entry>>
    requires |table| == HASH_SIZE
  {
    var b := Bucket(name);
    var i := FindEntry(table[b], name, 0);
    if i == -1 then table else table[b := table[b][..i] + table[b][i + 1..]]
  }

  // ---------- the operations ----------

  /** `find_file_slot`: the cache, then the chain, remembering a hit in the cache. */
  function Lookup(ix: Index, name: string): (Index, int)
    requires |ix.table| == HASH_SIZE
  {
    var c := FindCached(ix.cache, name, 0);
    if c != -1 then (ix, ix.cache[c].slot)
    else
      var chain := ix.table[Bucket(name)];
      var e := FindEntry(chain, name, 0);
      if e == -1 then (ix, -1)
      else (ix.(cache := AddToCache(ix.cache, name, chain[e].slot)), chain[e].slot)
  }

  datatype Event =
    | Find(name: string)
    | Create(name: string, user: string, confirmed: bool)
    | Delete(name: string, user: string)
    | Move(name: string, folder: string, user: string, confirmed: bool)
    | Register(sock: nat, files: seq<(string, string)>)
    | Disconnect(sock: nat)

  /** The catalog slot gets a file, and the hash map its name. */
  function Enter(ix: Index, slot: nat, file: File): Index
    requires |ix.table| == HASH_SIZE && slot < |ix.catalog| && file.File?
  {
    ix.(catalog := ix.catalog[slot := file], table := AddToMap(ix.table, file.name, slot))
  }

  /** Forget the name of the slot in hash map and cache, and free the slot. */
  function Delist(ix: Index, slot: nat): Index
    requires |ix.table| == HASH_SIZE && slot < |ix.catalog| && ix.catalog[slot].File?
  {
    var name := ix.catalog[slot].name;
    ix.(catalog := ix.catalog[slot := Free],
        table := RemoveFromMap(ix.table, name),
        cache := Invalidate(ix.cache, name))
  }

  /** Create, once the name is known to be new. `confirmed` is the storage server's answer. The C
      code does not look whether there was a free slot: without one, the name is mapped to -1. */
  function HandleCreate(ix: Index, name: string, user: string, confirmed: bool): Index
    requires |ix.table| == HASH_SIZE
  {
    var (ix1, found) := Lookup(ix, name);
    var server, slot := FirstServer(ix.servers, 0), FreeSlot(ix1.catalog, 0);
    if found != -1 || server == -1 || !confirmed then ix1
    else if slot == -1 then ix1.(table := AddToMap(ix1.table, name, -1))
    else Enter(ix1, slot, File(name, server, user))
  }

  /** The owner may change the file while its storage server is there. */
  predicate MayChange(ix: Index, slot: int, user: string) {
    0 <= slot < |ix.catalog| && ix.catalog[slot].File? && ix.catalog[slot].owner == user
    && ix.catalog[slot].server < |ix.servers| && ix.servers[ix.catalog[slot].server]
  }

  function HandleDelete(ix: Index, name: string, user: string): Index
    requires |ix.table| == HASH_SIZE
  {
    var (ix1, slot) := Lookup(ix, name);
    if MayChange(ix1, slot, user) then Delist(ix1, slot) else ix1
  }

  /** The part of a path after its last slash. */
  function BaseName(path: string): string {
    if path == "" then "" else if path[|path| - 1] == '/' then "" else BaseName(path[..|path| - 1]) + [path[|path| - 1]]
  }

  lemma SuffixSnoc(front: string, c: char, n: nat)
    requires n <= |front|
    ensures (front + [c])[n..] == front[n..] + [c]
  {
  }

  /** The base name is what follows the last slash: it has none itself. */
  lemma {:induction false} BaseNameIsLastPart(path: string) returns (n: nat)
    ensures n <= |path| && path[n..] == BaseName(path) && '/' !in BaseName(path)
    ensures n > 0 ==> path[n - 1] == '/'
    decreases path
  {
    if path != "" && path[|path| - 1] != '/' {
      var front := path[..|path| - 1];
      n := BaseNameIsLastPart(front);
      assert path == front + [path[|path| - 1]];
      SuffixSnoc(front, path[|path| - 1], n);
    } else {
      n := |path|;
    }
  }

  function NewPath(name: string, folder: string): string {
    folder + "/" + BaseName(name)
  }

  /** The slot keeps its file under a new name. */
  function Rename(ix: Index, slot: nat, name: string): Index
    requires |ix.table| == HASH_SIZE && slot < |ix.catalog| && ix.catalog[slot].File?
  {
    Enter(Delist(ix, slot), slot, ix.catalog[slot].(name := name))
  }

  function HandleMove(ix: Index, name: string, folder: string, user: string, confirmed: bool): Index
    requires |ix.table| == HASH_SIZE
  {
    var (ix1, slot) := Lookup(ix, name);
    if MayChange(ix1, slot, user) && confirmed then Rename(ix1, slot, NewPath(name, folder)) else ix1
  }

  /** One file of a registering storage server; skipped when the catalog is full. */
  function Catalog(ix: Index, sock: nat, file: (string, string)): Index
    requires |ix.table| == HASH_SIZE
  {
    var slot := FreeSlot(ix.catalog, 0);
    if slot == -1 then ix else Enter(ix, slot, File(file.0, sock, file.1))
  }

  function CatalogAll(ix: Index, sock: nat, files: seq<(string, string)>): Index
    requires |ix.table| == HASH_SIZE
    decreases files
  {
    if files == [] then ix else CatalogAll(Catalog(ix, sock, files[0]), sock, files[1..])
  }

  function SetServer(ix: Index, sock: nat, active: bool): Index {
    if sock < |ix.servers| then ix.(servers := ix.servers[sock := active]) else ix
  }

  /** Delist the files of a storage server, from slot `i` on. */
  function DelistFrom(ix: Index, sock: nat, i: nat): (r: Index)
    requires |ix.table| == HASH_SIZE && i <= |ix.catalog|
    ensures |r.catalog| == |ix.catalog| && |r.table| == HASH_SIZE
    decreases |ix.catalog| - i
  {
    if i == |ix.catalog| then ix
    else if ix.catalog[i].File? && ix.catalog[i].server == sock then DelistFrom(Delist(ix, i), sock, i + 1)
    else DelistFrom(ix, sock, i + 1)
  }

  function HandleDisconnect(ix: Index, sock: nat): Index
    requires |ix.table| == HASH_SIZE
  {
    if sock < |ix.servers| && ix.servers[sock] then DelistFrom(SetServer(ix, sock, false), sock, 0) else ix
  }

  function Step(ix: Index, e: Event): (r: Index)
    requires |ix.table| == HASH_SIZE
    ensures |r.table| == HASH_SIZE && |r.catalog| == |ix.catalog|
  {
    match e
    case Find(name) => Lookup(ix, name).0
    case Create(name, user, confirmed) => HandleCreate(ix, name, user, confirmed)
    case Delete(name, user) => HandleDelete(ix, name, user)
    case Move(name, folder, user, confirmed) => HandleMove(ix, name, folder, user, confirmed)
    case Register(sock, files) =>
      CatalogAllSize(SetServer(ix, sock, true), sock, files);
      CatalogAll(SetServer(ix, sock, true), sock, files)
    case Disconnect(sock) => HandleDisconnect(ix, sock)
  }

  lemma {:induction false} CatalogAllSize(ix: Index, sock: nat, files: seq<(string, string)>)
    requires |ix.table| == HASH_SIZE
    ensures |CatalogAll(ix, sock, files).table| == HASH_SIZE && |CatalogAll(ix, sock, files).catalog| == |ix.catalog|
    decreases files
  {
    if files != [] {
      CatalogAllSize(Catalog(ix, sock, files[0]), sock, files[1..]);
    }
  }

  function Run(ix: Index, es: seq<Event>): (r: Index)
    requires |ix.table| == HASH_SIZE
    ensures |r.table| == HASH_SIZE
    decreases es
  {
    if es == [] then ix else Run(Step(ix, es[0]), es[1..])
  }

  const MAX_FILES_IN_SYSTEM := 1024
  const MAX_CONNECTIONS := 1024
  const CACHE_SIZE := 5

  function Init(): Index {
    Index(seq(MAX_FILES_IN_SYSTEM, _ => Free), seq(HASH_SIZE, _ => []), seq(CACHE_SIZE, _ => Invalid),
          seq(MAX_CONNECTIONS, _ => false))
  }

  // ---------- the invariant ----------

  ghost predicate NamesUnique(catalog: seq<File>) {
    forall i, j {:trigger catalog[i].name, catalog[j].name}
      | 0 <= i < j < |catalog| && catalog[i].File? && catalog[j].File? :: catalog[i].name != catalog[j].name
  }

  /** The slot is active under the key. */
  ghost predicate Points(catalog: seq<File>, key: string, slot: int) {
    0 <= slot < |catalog| && Named(catalog[slot], key)
  }

  ghost predicate InChain(table: seq<seq<Entry>>, b: int, k: int) {
    0 <= b < |table| && 0 <= k < |table[b]|
  }

  /** Every chain entry is in its own bucket and points at its file; no key twice. */
  ghost predicate TableSound(catalog: seq<File>, table: seq<seq<Entry>>) {
    && (forall b, k {:trigger InChain(table, b, k)} | InChain(table, b, k) ::
          Bucket(table[b][k].key) == b && Points(catalog, table[b][k].key, table[b][k].slot))
    && (forall b, k, l {:trigger InChain(table, b, k), InChain(table, b, l)}
          | InChain(table, b, k) && InChain(table, b, l) && k != l ::
          table[b][k].key != table[b][l].key)
  }

  /** Every active file is in the chain of its name. */
  ghost predicate TableComplete(catalog: seq<File>, table: seq<seq<Entry>>)
    requires |table| == HASH_SIZE
  {
    forall i {:trigger catalog[i].name} | 0 <= i < |catalog| && catalog[i].File? ::
      Entry(catalog[i].name, i) in table[Bucket(catalog[i].name)]
  }

  ghost predicate CacheSound(catalog: seq<File>, cache: seq<CacheSlot>) {
    && (forall c | 0 <= c < |cache| && cache[c].Cached? :: Points(catalog, cache[c].key, cache[c].slot))
    && (forall c, d | 0 <= c < d < |cache| && cache[c].Cached? && cache[d].Cached? :: cache[c].key != cache[d].key)
  }

  ghost predicate Inv(ix: Index) {
    && |ix.table| == HASH_SIZE
    && NamesUnique(ix.catalog)
    && TableSound(ix.catalog, ix.table)
    && TableComplete(ix.catalog, ix.table)
    && CacheSound(ix.catalog, ix.cache)
  }

  // ---------- transparency ----------

  lemma PointsIsScan(catalog: seq<File>, name: string, slot: int)
    requires NamesUnique(catalog) && Points(catalog, name, slot)
    ensures Scan(catalog, name, 0) == slot
  {
    var r := Scan(catalog, name, 0);
    assert catalog[r].name == catalog[slot].name;
  }

  /** Whatever the cache holds, a lookup returns what a linear scan of the catalog returns, and
      changes nothing but the cache. */
  lemma LookupIsScan(ix: Index, name: string)
    requires Inv(ix)
    ensures Lookup(ix, name).1 == Scan(ix.catalog, name, 0)
    ensures Inv(Lookup(ix, name).0) && Lookup(ix, name).0.(cache := ix.cache) == ix
  {
    var c, i := FindCached(ix.cache, name, 0), Scan(ix.catalog, name, 0);
    if i != -1 {
      NamedIsInChain(ix.catalog, ix.table, i);
    }
    if c != -1 {
      PointsIsScan(ix.catalog, name, ix.cache[c].slot);
    } else {
      var chain := ix.table[Bucket(name)];
      var e := FindEntry(chain, name, 0);
      if e != -1 {
        assert InChain(ix.table, Bucket(name), e);
        PointsIsScan(ix.catalog, name, chain[e].slot);
        AddedCacheSound(ix.catalog, ix.cache, name, chain[e].slot);
      }
    }
  }

  lemma NamedIsInChain(catalog: seq<File>, table: seq<seq<Entry>>, i: nat)
    requires |table| == HASH_SIZE && TableComplete(catalog, table) && i < |catalog| && catalog[i].File?
    ensures FindEntry(table[Bucket(catalog[i].name)], catalog[i].name, 0) != -1
  {
    assert Entry(catalog[i].name, i) in table[Bucket(catalog[i].name)];
  }

  lemma AddedCacheSound(catalog: seq<File>, cache: seq<CacheSlot>, name: string, slot: int)
    requires CacheSound(catalog, cache) && Points(catalog, name, slot)
    ensures CacheSound(catalog, AddToCache(cache, name, slot))
  {
    var cache' := AddToCache(cache, name, slot);
    if cache' != cache {
      assert forall c | 1 <= c < |cache'| :: cache'[c] == cache[c - 1] && !Hits(cache[c - 1], name);
    }
  }

  // ---------- every step keeps the invariant ----------

  lemma AddedToMap(table: seq<seq<Entry>>, name: string, slot: int)
    requires |table| == HASH_SIZE
    ensures var table' := AddToMap(table, name, slot);
            && (forall b, k | InChain(table', b, k) ::
                  if b == Bucket(name) && k == 0 then table'[b][k] == Entry(name, slot)
                  else InChain(table, b, if b == Bucket(name) then k - 1 else k)
                       && table'[b][k] == table[b][if b == Bucket(name) then k - 1 else k])
            && (forall b, e | 0 <= b < |table| && e in table[b] :: e in table'[b])
            && Entry(name, slot) in table'[Bucket(name)]
  {
    var table' := AddToMap(table, name, slot);
    assert table'[Bucket(name)][0] == Entry(name, slot);
    forall b, e | 0 <= b < |table| && e in table[b]
      ensures e in table'[b]
    {
      var k :| 0 <= k < |table[b]| && table[b][k] == e;
      assert table'[b][if b == Bucket(name) then k + 1 else k] == e;
    }
  }

  /** A new name enters a free slot. */
  lemma EnterInv(ix: Index, slot: nat, file: File)
    requires Inv(ix) && slot < |ix.catalog| && ix.catalog[slot].Free? && file.File?
    requires Scan(ix.catalog, file.name, 0) == -1
    ensures Inv(Enter(ix, slot, file))
  {
    AddedToMap(ix.table, file.name, slot);
    EnterTable(ix.catalog, ix.table, slot, file);
    var catalog' := ix.catalog[slot := file];
    forall c | 0 <= c < |ix.cache| && ix.cache[c].Cached?
      ensures Points(catalog', ix.cache[c].key, ix.cache[c].slot)
    {
      assert Points(ix.catalog, ix.cache[c].key, ix.cache[c].slot);
    }
    assert forall i | 0 <= i < |ix.catalog| && i != slot :: catalog'[i] == ix.catalog[i];
  }

  lemma EnterTable(catalog: seq<File>, table: seq<seq<Entry>>, slot: nat, file: File)
    requires |table| == HASH_SIZE && TableSound(catalog, table)
    requires slot < |catalog| && catalog[slot].Free? && file.File? && Scan(catalog, file.name, 0) == -1
    ensures TableSound(catalog[slot := file], AddToMap(table, file.name, slot))
  {
    var table', catalog' := AddToMap(table, file.name, slot), catalog[slot := file];
    var home := Bucket(file.name);
    AddedToMap(table, file.name, slot);
    forall b, k | InChain(table', b, k)
      ensures Bucket(table'[b][k].key) == b && Points(catalog', table'[b][k].key, table'[b][k].slot)
      ensures !(b == home && k == 0) ==> table'[b][k].key != file.name
    {
      if !(b == home && k == 0) {
        assert InChain(table, b, if b == home then k - 1 else k);
      }
    }
    forall b, k, l | InChain(table', b, k) && InChain(table', b, l) && k != l
      ensures table'[b][k].key != table'[b][l].key
    {
      if !(b == home && (k == 0 || l == 0)) {
        assert InChain(table, b, if b == home then k - 1 else k);
        assert InChain(table, b, if b == home then l - 1 else l);
      }
    }
  }

  /** The name of an active slot is found in its chain, and in no other place of the map. */
  lemma FoundInChain(catalog: seq<File>, table: seq<seq<Entry>>, slot: nat)
    requires |table| == HASH_SIZE && TableSound(catalog, table) && TableComplete(catalog, table)
    requires slot < |catalog| && catalog[slot].File?
    ensures var home := Bucket(catalog[slot].name);
            var e := FindEntry(table[home], catalog[slot].name, 0);
            && e != -1 && table[home][e] == Entry(catalog[slot].name, slot)
            && forall b, k {:trigger InChain(table, b, k)}
                 | InChain(table, b, k) && table[b][k].key == catalog[slot].name :: b == home && k == e
  {
    var name := catalog[slot].name;
    var home := Bucket(name);
    var e := FindEntry(table[home], name, 0);
    assert Entry(name, slot) in table[home];
    var q :| 0 <= q < |table[home]| && table[home][q] == Entry(name, slot);
    assert InChain(table, home, q) && InChain(table, home, e);
  }

  /** The place in the old map of what is at `b`, `k` after entry `e` of bucket `home` was removed. */
  ghost function Before(home: int, e: int, b: int, k: int): int {
    if b == home && k >= e then k + 1 else k
  }

  /** What is left of the map without entry `e` of bucket `home`. */
  lemma WithoutEntry(table: seq<seq<Entry>>, home: nat, e: nat)
    requires home < |table| && e < |table[home]|
    ensures var table' := table[home := table[home][..e] + table[home][e + 1..]];
            && (forall b, k {:trigger InChain(table', b, k)} | InChain(table', b, k) ::
                  InChain(table, b, Before(home, e, b, k)) && table'[b][k] == table[b][Before(home, e, b, k)])
            && (forall b, x | 0 <= b < |table| && x in table[b] && x != table[home][e] :: x in table'[b])
  {
    var table' := table[home := table[home][..e] + table[home][e + 1..]];
    forall b, x | 0 <= b < |table| && x in table[b] && x != table[home][e]
      ensures x in table'[b]
    {
      var k :| 0 <= k < |table[b]| && table[b][k] == x;
      if b == home {
        assert table'[b][if k > e then k - 1 else k] == x;
      }
    }
  }

  /** What removing the name of an active slot leaves in the map. */
  lemma RemovedFromMap(catalog: seq<File>, table: seq<seq<Entry>>, slot: nat)
    requires |table| == HASH_SIZE && TableSound(catalog, table) && TableComplete(catalog, table)
    requires slot < |catalog| && catalog[slot].File?
    ensures var name := catalog[slot].name;
            var home, table' := Bucket(name), RemoveFromMap(table, name);
            var e := FindEntry(table[home], name, 0);
            && e != -1 && table[home][e] == Entry(name, slot)
            && table' == table[home := table[home][..e] + table[home][e + 1..]]
            && (forall b, k {:trigger InChain(table', b, k)} | InChain(table', b, k) ::
                  && InChain(table, b, Before(home, e, b, k)) && table'[b][k] == table[b][Before(home, e, b, k)]
                  && table'[b][k].key != name)
            && (forall b, x | 0 <= b < |table| && x in table[b] && x.key != name :: x in table'[b])
  {
    var name := catalog[slot].name;
    FoundInChain(catalog, table, slot);
    WithoutEntry(table, Bucket(name), FindEntry(table[Bucket(name)], name, 0));
  }

  lemma DelistInv(ix: Index, slot: nat)
    requires Inv(ix) && slot < |ix.catalog| && ix.catalog[slot].File?
    ensures Inv(Delist(ix, slot)) && Scan(Delist(ix, slot).catalog, ix.catalog[slot].name, 0) == -1
  {
    var name, ix1 := ix.catalog[slot].name, Delist(ix, slot);
    RemovedFromMap(ix.catalog, ix.table, slot);
    DelistTable(ix.catalog, ix.table, slot);
    assert forall i | 0 <= i < |ix.catalog| && i != slot :: ix1.catalog[i] == ix.catalog[i];
    forall c | 0 <= c < |ix.cache| && ix1.cache[c].Cached?
      ensures Points(ix1.catalog, ix1.cache[c].key, ix1.cache[c].slot)
    {
      assert Points(ix.catalog, ix.cache[c].key, ix.cache[c].slot);
    }
    forall i | 0 <= i < |ix1.catalog|
      ensures !Named(ix1.catalog[i], name)
    {
      if i != slot && ix.catalog[i].File? {
        assert ix.catalog[i].name != ix.catalog[slot].name;
      }
    }
  }

  lemma DelistTable(catalog: seq<File>, table: seq<seq<Entry>>, slot: nat)
    requires |table| == HASH_SIZE && NamesUnique(catalog) && TableSound(catalog, table) && TableComplete(catalog, table)
    requires slot < |catalog| && catalog[slot].File?
    ensures var table', catalog' := RemoveFromMap(table, catalog[slot].name), catalog[slot := Free];
            TableSound(catalog', table') && TableComplete(catalog', table')
  {
    var name := catalog[slot].name;
    var table', catalog' := RemoveFromMap(table, name), catalog[slot := Free];
    var home, e := Bucket(name), FindEntry(table[Bucket(name)], name, 0);
    RemovedFromMap(catalog, table, slot);
    forall b, k | InChain(table', b, k)
      ensures Bucket(table'[b][k].key) == b && Points(catalog', table'[b][k].key, table'[b][k].slot)
    {
      var k0 := Before(home, e, b, k);
      assert InChain(table, b, k0) && table'[b][k] == table[b][k0] && table'[b][k].key != name;
    }
    forall b, k, l | InChain(table', b, k) && InChain(table', b, l) && k != l
      ensures table'[b][k].key != table'[b][l].key
    {
      var k0 := Before(home, e, b, k);
      var l0 := Before(home, e, b, l);
      assert InChain(table, b, k0) && InChain(table, b, l0) && k0 != l0;
    }
    forall i | 0 <= i < |catalog'| && catalog'[i].File?
      ensures Entry(catalog'[i].name, i) in table'[Bucket(catalog'[i].name)]
    {
      assert catalog[i].name != catalog[slot].name;
    }
  }

  // ---------- runs ----------

  /** Registering files one at a time: each name new, or the catalog full. */
  ghost predicate NewNames(ix: Index, sock: nat, files: seq<(string, string)>)
    requires |ix.table| == HASH_SIZE
    decreases files
  {
    files != [] ==>
    && (FreeSlot(ix.catalog, 0) != -1 ==> Scan(ix.catalog, files[0].0, 0) == -1)
    && NewNames(Catalog(ix, sock, files[0]), sock, files[1..])
  }

  /** No file but the one in `slot` has the name. */
  ghost predicate Available(catalog: seq<File>, name: string, slot: int) {
    Scan(catalog, name, 0) == -1 || Scan(catalog, name, 0) == slot
  }

  /** The name is new, and some storage server confirms the file. */
  ghost predicate GoesThrough(ix: Index, name: string, confirmed: bool) {
    Scan(ix.catalog, name, 0) == -1 && FirstServer(ix.servers, 0) != -1 && confirmed
  }

  /** The owner moves the file while its storage server is there, and that confirms it. */
  ghost predicate Moves(ix: Index, name: string, user: string, confirmed: bool) {
    MayChange(ix, Scan(ix.catalog, name, 0), user) && confirmed
  }

  /** A CREATE that goes through finds a free slot; a MOVE that goes through has a new name, or the
      file's own; registered names are new. */
  ghost predicate Guard(ix: Index, e: Event)
    requires |ix.table| == HASH_SIZE
  {
    match e
    case Create(name, _, confirmed) => GoesThrough(ix, name, confirmed) ==> FreeSlot(ix.catalog, 0) != -1
    case Move(name, folder, user, confirmed) =>
      Moves(ix, name, user, confirmed) ==> Available(ix.catalog, NewPath(name, folder), Scan(ix.catalog, name, 0))
    case Register(sock, files) => NewNames(SetServer(ix, sock, true), sock, files)
    case _ => true
  }

  ghost predicate Guarded(ix: Index, es: seq<Event>)
    requires |ix.table| == HASH_SIZE
    decreases es
  {
    es == [] || (Guard(ix, es[0]) && Guarded(Step(ix, es[0]), es[1..]))
  }

  lemma InitInv()
    ensures Inv(Init())
  {
  }

  lemma RenameInv(ix: Index, slot: nat, name: string)
    requires Inv(ix) && slot < |ix.catalog| && ix.catalog[slot].File?
    requires Available(ix.catalog, name, slot)
    ensures Inv(Rename(ix, slot, name))
  {
    DelistInv(ix, slot);
    var ix1 := Delist(ix, slot);
    forall i | 0 <= i < |ix1.catalog|
      ensures !Named(ix1.catalog[i], name)
    {
      if i != slot && Named(ix.catalog[i], name) {
        PointsIsScan(ix.catalog, name, i);
      }
    }
    EnterInv(ix1, slot, ix.catalog[slot].(name := name));
  }

  lemma {:induction false} CatalogAllInv(ix: Index, sock: nat, files: seq<(string, string)>)
    requires Inv(ix) && NewNames(ix, sock, files)
    ensures Inv(CatalogAll(ix, sock, files))
    decreases files
  {
    if files != [] {
      if FreeSlot(ix.catalog, 0) != -1 {
        EnterInv(ix, FreeSlot(ix.catalog, 0), File(files[0].0, sock, files[0].1));
      }
      CatalogAllInv(Catalog(ix, sock, files[0]), sock, files[1..]);
    }
  }

  lemma {:induction false} DelistFromInv(ix: Index, sock: nat, i: nat)
    requires Inv(ix) && i <= |ix.catalog|
    ensures Inv(DelistFrom(ix, sock, i))
    decreases |ix.catalog| - i
  {
    if i < |ix.catalog| {
      if ix.catalog[i].File? && ix.catalog[i].server == sock {
        DelistInv(ix, i);
        DelistFromInv(Delist(ix, i), sock, i + 1);
      } else {
        DelistFromInv(ix, sock, i + 1);
      }
    }
  }

  /** The delisting loop frees exactly the slots of the server from `i` on. */
  lemma {:induction false} DelistFromCatalog(ix: Index, sock: nat, i: nat)
    requires |ix.table| == HASH_SIZE && i <= |ix.catalog|
    ensures forall j | 0 <= j < |ix.catalog| :: DelistFrom(ix, sock, i).catalog[j] ==
              if i <= j && ix.catalog[j].File? && ix.catalog[j].server == sock then Free else ix.catalog[j]
    decreases |ix.catalog| - i
  {
    if i < |ix.catalog| {
      DelistFromCatalog(if ix.catalog[i].File? && ix.catalog[i].server == sock then Delist(ix, i) else ix, sock, i + 1);
    }
  }

  lemma StepInv(ix: Index, e: Event)
    requires Inv(ix) && Guard(ix, e)
    ensures Inv(Step(ix, e))
  {
    match e
    case Find(name) => LookupIsScan(ix, name);
    case Create(name, user, _) =>
      LookupIsScan(ix, name);
      var ix1 := Lookup(ix, name).0;
      var server, slot := FirstServer(ix.servers, 0), FreeSlot(ix1.catalog, 0);
      if HandleCreate(ix, name, user, e.confirmed) != ix1 {
        EnterInv(ix1, slot, File(name, server, user));
      }
    case Delete(name, user) =>
      LookupIsScan(ix, name);
      var (ix1, slot) := Lookup(ix, name);
      if MayChange(ix1, slot, user) {
        DelistInv(ix1, slot);
      }
    case Move(name, folder, user, confirmed) =>
      LookupIsScan(ix, name);
      var (ix1, slot) := Lookup(ix, name);
      if MayChange(ix1, slot, user) && confirmed {
        RenameInv(ix1, slot, NewPath(name, folder));
      }
    case Register(sock, files) => CatalogAllInv(SetServer(ix, sock, true), sock, files);
    case Disconnect(sock) =>
      if sock < |ix.servers| && ix.servers[sock] {
        DelistFromInv(SetServer(ix, sock, false), sock, 0);
      }
  }

  lemma {:induction false} RunInv(ix: Index, es: seq<Event>)
    requires Inv(ix) && Guarded(ix, es)
    ensures Inv(Run(ix, es))
    decreases es
  {
    if es != [] {
      StepInv(ix, es[0]);
      RunInv(Step(ix, es[0]), es[1..]);
    }
  }

  /** After every guarded run from start-up, a lookup of any name returns the slot a linear scan of
      the catalog would, whatever the cache holds. */
  lemma IndexIsTransparent(es: seq<Event>, name: string)
    requires |Init().table| == HASH_SIZE && Guarded(Init(), es)
    ensures Lookup(Run(Init(), es), name).1 == Scan(Run(Init(), es).catalog, name, 0)
  {
    InitInv();
    RunInv(Init(), es);
    LookupIsScan(Run(Init(), es), name);
  }

  // ---------- exactly when a step keeps the index ----------

  /** A CREATE keeps the index exactly when it is refused or finds a free slot. */
  lemma CreateKeepsInvIff(ix: Index, name: string, user: string, confirmed: bool)
    requires Inv(ix)
    ensures Inv(HandleCreate(ix, name, user, confirmed))
       <==> (GoesThrough(ix, name, confirmed) ==> FreeSlot(ix.catalog, 0) != -1)
  {
    LookupIsScan(ix, name);
    if Guard(ix, Create(name, user, confirmed)) {
      StepInv(ix, Create(name, user, confirmed));
    } else {
      var table' := HandleCreate(ix, name, user, confirmed).table;
      assert InChain(table', Bucket(name), 0) && table'[Bucket(name)][0] == Entry(name, -1);
    }
  }

  /** A confirmed move by the owner keeps the index exactly when no other file has the new name. */
  lemma RenameKeepsInvIff(ix: Index, slot: nat, name: string)
    requires Inv(ix) && slot < |ix.catalog| && ix.catalog[slot].File?
    ensures Inv(Rename(ix, slot, name)) <==> Available(ix.catalog, name, slot)
  {
    var other := Scan(ix.catalog, name, 0);
    if other == -1 || other == slot {
      RenameInv(ix, slot, name);
    } else {
      var catalog' := Rename(ix, slot, name).catalog;
      assert catalog'[slot].name == name && catalog'[other].name == name;
    }
  }

  /** Cataloguing a file keeps the index exactly when its name is new or there is no slot for it. */
  lemma CatalogKeepsInvIff(ix: Index, sock: nat, file: (string, string))
    requires Inv(ix)
    ensures Inv(Catalog(ix, sock, file)) <==> FreeSlot(ix.catalog, 0) == -1 || Scan(ix.catalog, file.0, 0) == -1
  {
    var slot, other := FreeSlot(ix.catalog, 0), Scan(ix.catalog, file.0, 0);
    if slot != -1 && other == -1 {
      EnterInv(ix, slot, File(file.0, sock, file.1));
    } else if slot != -1 {
      var catalog' := Catalog(ix, sock, file).catalog;
      assert catalog'[slot].name == file.0 && catalog'[other].name == file.0;
    }
  }

  /** A MOVE keeps the index exactly when it is refused or no other file has the new name. */
  lemma MoveKeepsInvIff(ix: Index, name: string, folder: string, user: string, confirmed: bool)
    requires Inv(ix)
    ensures Inv(HandleMove(ix, name, folder, user, confirmed))
       <==> (Moves(ix, name, user, confirmed) ==>
               Available(ix.catalog, NewPath(name, folder), Scan(ix.catalog, name, 0)))
  {
    LookupIsScan(ix, name);
    var (ix1, slot) := Lookup(ix, name);
    if MayChange(ix1, slot, user) && confirmed {
      RenameKeepsInvIff(ix1, slot, NewPath(name, folder));
    }
  }

  /** Names that are catalogued twice stay so while more files are entered. */
  lemma {:induction false} CatalogAllBroken(ix: Index, sock: nat, files: seq<(string, string)>)
    requires |ix.table| == HASH_SIZE && !NamesUnique(ix.catalog)
    ensures !NamesUnique(CatalogAll(ix, sock, files).catalog)
    decreases files
  {
    if files != [] {
      var ix1 := Catalog(ix, sock, files[0]);
      var i, j :| 0 <= i < j < |ix.catalog| && ix.catalog[i].File? && ix.catalog[j].File?
                  && ix.catalog[i].name == ix.catalog[j].name;
      assert ix1.catalog[i].name == ix1.catalog[j].name;
      CatalogAllBroken(ix1, sock, files[1..]);
    }
  }

  /** A registration keeps the index exactly when every name it enters is new. */
  lemma {:induction false} RegisterKeepsInvIff(ix: Index, sock: nat, files: seq<(string, string)>)
    requires Inv(ix)
    ensures Inv(CatalogAll(ix, sock, files)) <==> NewNames(ix, sock, files)
    decreases files
  {
    if files != [] {
      var ix1 := Catalog(ix, sock, files[0]);
      CatalogKeepsInvIff(ix, sock, files[0]);
      if FreeSlot(ix.catalog, 0) == -1 || Scan(ix.catalog, files[0].0, 0) == -1 {
        RegisterKeepsInvIff(ix1, sock, files[1..]);
      } else {
        var slot, other := FreeSlot(ix.catalog, 0), Scan(ix.catalog, files[0].0, 0);
        assert ix1.catalog[slot].name == ix1.catalog[other].name;
        CatalogAllBroken(ix1, sock, files[1..]);
      }
    }
  }

  /** The guard is exact: a step keeps the index exactly when its guard holds. */
  lemma StepInvIff(ix: Index, e: Event)
    requires Inv(ix)
    ensures Inv(Step(ix, e)) <==> Guard(ix, e)
  {
    match e
    case Create(name, user, confirmed) => CreateKeepsInvIff(ix, name, user, confirmed);
    case Move(name, folder, user, confirmed) => MoveKeepsInvIff(ix, name, folder, user, confirmed);
    case Register(sock, files) => RegisterKeepsInvIff(SetServer(ix, sock, true), sock, files);
    case _ => StepInv(ix, e);
  }

  // ---------- what each operation does to lookups ----------

  lemma ScanAfterEnter(ix: Index, slot: nat, file: File, other: string)
    requires Inv(ix) && slot < |ix.catalog| && ix.catalog[slot].Free? && file.File?
    requires Scan(ix.catalog, file.name, 0) == -1
    ensures Scan(Enter(ix, slot, file).catalog, other, 0)
         == if other == file.name then slot else Scan(ix.catalog, other, 0)
  {
    EnterInv(ix, slot, file);
    var catalog', k := Enter(ix, slot, file).catalog, Scan(ix.catalog, other, 0);
    if other == file.name {
      PointsIsScan(catalog', other, slot);
    } else if k != -1 {
      PointsIsScan(catalog', other, k);
    } else {
      assert forall j | 0 <= j < |catalog'| :: !Named(catalog'[j], other);
    }
  }

  lemma ScanAfterDelist(ix: Index, slot: nat, other: string)
    requires Inv(ix) && slot < |ix.catalog| && ix.catalog[slot].File?
    ensures Scan(Delist(ix, slot).catalog, other, 0)
         == if other == ix.catalog[slot].name then -1 else Scan(ix.catalog, other, 0)
  {
    DelistInv(ix, slot);
    var catalog', k := Delist(ix, slot).catalog, Scan(ix.catalog, other, 0);
    if other != ix.catalog[slot].name {
      if k != -1 {
        PointsIsScan(catalog', other, k);
      } else {
        assert forall j | 0 <= j < |catalog'| :: !Named(catalog'[j], other);
      }
    }
  }

  /** After CREATE the new name is found in the free slot, and every other name where it was. */
  lemma CreateEntersName(ix: Index, name: string, user: string, other: string)
    requires Inv(ix) && Scan(ix.catalog, name, 0) == -1
    requires FirstServer(ix.servers, 0) != -1 && FreeSlot(ix.catalog, 0) != -1
    ensures Lookup(HandleCreate(ix, name, user, true), other).1
         == if other == name then FreeSlot(ix.catalog, 0) else Scan(ix.catalog, other, 0)
  {
    LookupIsScan(ix, name);
    StepInv(ix, Create(name, user, true));
    LookupIsScan(HandleCreate(ix, name, user, true), other);
    ScanAfterEnter(Lookup(ix, name).0, FreeSlot(ix.catalog, 0), File(name, FirstServer(ix.servers, 0), user), other);
  }

  /** After DELETE by the owner the name is gone, and every other name where it was. */
  lemma DeleteRemovesName(ix: Index, name: string, user: string, other: string)
    requires Inv(ix) && MayChange(ix, Scan(ix.catalog, name, 0), user)
    ensures Lookup(HandleDelete(ix, name, user), other).1 == if other == name then -1 else Scan(ix.catalog, other, 0)
  {
    LookupIsScan(ix, name);
    StepInv(ix, Delete(name, user));
    LookupIsScan(HandleDelete(ix, name, user), other);
    ScanAfterDelist(Lookup(ix, name).0, Scan(ix.catalog, name, 0), other);
  }

  /** After a confirmed MOVE the file is found under its new path in the same slot, no longer under
      the old one, and every other name where it was. */
  lemma MoveMovesName(ix: Index, name: string, folder: string, user: string, other: string)
    requires Inv(ix) && Guard(ix, Move(name, folder, user, true)) && MayChange(ix, Scan(ix.catalog, name, 0), user)
    ensures Lookup(HandleMove(ix, name, folder, user, true), other).1
         == if other == NewPath(name, folder) then Scan(ix.catalog, name, 0)
            else if other == name then -1 else Scan(ix.catalog, other, 0)
  {
    LookupIsScan(ix, name);
    StepInv(ix, Move(name, folder, user, true));
    LookupIsScan(HandleMove(ix, name, folder, user, true), other);
    var ix1, slot := Lookup(ix, name).0, Scan(ix.catalog, name, 0);
    DelistInv(ix1, slot);
    ScanAfterDelist(ix1, slot, other);
    ScanAfterDelist(ix1, slot, NewPath(name, folder));
    ScanAfterEnter(Delist(ix1, slot), slot, ix.catalog[slot].(name := NewPath(name, folder)), other);
  }

  /** A storage server that disconnects takes exactly its own files out of the index. */
  lemma DisconnectDelists(ix: Index, sock: nat, name: string)
    requires Inv(ix) && sock < |ix.servers| && ix.servers[sock]
    ensures var slot := Scan(ix.catalog, name, 0);
            Lookup(HandleDisconnect(ix, sock), name).1
            == if slot != -1 && ix.catalog[slot].server == sock then -1 else slot
  {
    var ix1, ix2 := SetServer(ix, sock, false), HandleDisconnect(ix, sock);
    DelistFromInv(ix1, sock, 0);
    DelistFromCatalog(ix1, sock, 0);
    LookupIsScan(ix2, name);
    var slot := Scan(ix.catalog, name, 0);
    if slot != -1 && ix.catalog[slot].server != sock {
      PointsIsScan(ix2.catalog, name, slot);
    } else {
      forall j | 0 <= j < |ix2.catalog|
        ensures !Named(ix2.catalog[j], name)
      {
        if Named(ix.catalog[j], name) {
          PointsIsScan(ix.catalog, name, j);
        }
      }
    }
  }
}
