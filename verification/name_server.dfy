/** The name server's tables and handlers, updated in place. */
module NameServer {
  import opened Djb2
  import opened NameIndex

  class Server {
    const catalog: array<File>
    const table: array<seq<Entry>>
    const cache: array<CacheSlot>
    const servers: array<bool>

    ghost function State(): Index
      reads catalog, table, cache, servers
    {
      Index(catalog[..], table[..], cache[..], servers[..])
    }

    ghost predicate Valid() {
      table.Length == HASH_SIZE
    }

    /** Start-up: empty tables. */
    constructor ()
      ensures Valid() && fresh(catalog) && fresh(table) && fresh(cache) && fresh(servers)
      ensures State() == Init()
    {
      catalog := new File[MAX_FILES_IN_SYSTEM](_ => Free);
      table := new seq<Entry>[HASH_SIZE](_ => []);
      cache := new CacheSlot[CACHE_SIZE](_ => Invalid);
      servers := new bool[MAX_CONNECTIONS](_ => false);
    }

    // ---------- hash map and cache ----------

    method AddToCache(filename: string, slot: int)
      modifies cache
      ensures cache[..] == NameIndex.AddToCache(old(cache[..]), filename, slot)
    {
      var i := 0;
      while i < cache.Length
        invariant 0 <= i <= cache.Length && cache[..] == old(cache[..])
        invariant FindCached(cache[..], filename, i) == FindCached(cache[..], filename, 0)
      {
        if cache[i].Cached? && cache[i].key == filename {
          return;
        }
        i := i + 1;
      }
      if cache.Length == 0 {
        return;
      }
      i := cache.Length - 1;
      while i > 0
        invariant 0 <= i < cache.Length
        invariant forall j | 0 <= j <= i :: cache[j] == old(cache[j])
        invariant forall j | i < j < cache.Length :: cache[j] == old(cache[j - 1])
      {
        cache[i] := cache[i - 1];
        i := i - 1;
      }
      cache[0] := Cached(filename, slot);
    }

    method InvalidateCache(filename: string)
      modifies cache
      ensures cache[..] == Invalidate(old(cache[..]), filename)
    {
      for i := 0 to cache.Length
        invariant forall j | 0 <= j < i :: cache[j] == Invalidate(old(cache[..]), filename)[j]
        invariant forall j | i <= j < cache.Length :: cache[j] == old(cache[j])
      {
        if cache[i].Cached? && cache[i].key == filename {
          cache[i] := Invalid;
        }
      }
    }

    method AddToHashmap(filename: string, slot: int)
      requires Valid()
      modifies table
      ensures table[..] == AddToMap(old(table[..]), filename, slot)
    {
      var idx := HashFunc(filename);
      table[idx] := [Entry(filename, slot)] + table[idx];
    }

    method RemoveFromHashmap(filename: string)
      requires Valid()
      modifies table
      ensures table[..] == RemoveFromMap(old(table[..]), filename)
    {
      var idx := HashFunc(filename);
      var i := 0;
      while i < |table[idx]|
        invariant 0 <= i <= |table[idx]| && table[..] == old(table[..])
        invariant FindEntry(table[idx], filename, i) == FindEntry(table[idx], filename, 0)
      {
        if table[idx][i].key == filename {
          table[idx] := table[idx][..i] + table[idx][i + 1..];
          return;
        }
        i := i + 1;
      }
    }

    // ---------- lookups ----------

    /** The fast lookup. It may change the cache, and returns what a linear scan would. */
    method FindFileSlot(filename: string) returns (slot: int)
      requires Valid()
      modifies cache
      ensures (State(), slot) == Lookup(old(State()), filename)
      ensures old(Inv(State())) ==> Inv(State()) && slot == Scan(catalog[..], filename, 0)
    {
      ghost var before := State();
      if Inv(before) {
        LookupIsScan(before, filename);
      }
      var i := 0;
      while i < cache.Length
        invariant 0 <= i <= cache.Length && State() == before
        invariant FindCached(cache[..], filename, i) == FindCached(cache[..], filename, 0)
      {
        if cache[i].Cached? && cache[i].key == filename {
          return cache[i].slot;
        }
        i := i + 1;
      }
      var idx := HashFunc(filename);
      var k := 0;
      while k < |table[idx]|
        invariant 0 <= k <= |table[idx]| && State() == before
        invariant FindEntry(table[idx], filename, k) == FindEntry(table[idx], filename, 0)
      {
        if table[idx][k].key == filename {
          AddToCache(filename, table[idx][k].slot);
          return table[idx][k].slot;
        }
        k := k + 1;
      }
      slot := -1;
    }

    method FindEmptyFileSlot() returns (slot: int)
      ensures slot == FreeSlot(catalog[..], 0)
    {
      slot := 0;
      while slot < catalog.Length
        invariant 0 <= slot <= catalog.Length
        invariant FreeSlot(catalog[..], slot) == FreeSlot(catalog[..], 0)
      {
        if catalog[slot].Free? {
          return;
        }
        slot := slot + 1;
      }
      slot := -1;
    }

    method FindAvailableServer() returns (sock: int)
      ensures sock == FirstServer(servers[..], 0)
    {
      sock := 0;
      while sock < servers.Length
        invariant 0 <= sock <= servers.Length
        invariant FirstServer(servers[..], sock) == FirstServer(servers[..], 0)
      {
        if servers[sock] {
          return;
        }
        sock := sock + 1;
      }
      sock := -1;
    }

    // ---------- handlers ----------

    method EnterFile(slot: nat, file: File)
      requires Valid() && slot < catalog.Length && file.File?
      modifies catalog, table
      ensures State() == Enter(old(State()), slot, file)
    {
      catalog[slot] := file;
      AddToHashmap(file.name, slot);
    }

    method DelistFile(slot: nat)
      requires Valid() && slot < catalog.Length && catalog[slot].File?
      modifies catalog, table, cache
      ensures State() == Delist(old(State()), slot)
    {
      RemoveFromHashmap(catalog[slot].name);
      InvalidateCache(catalog[slot].name);
      catalog[slot] := Free;
    }

    /** CREATE: refused for a known name or without a storage server. The slot of the new file, or -1. */
    method HandleReqCreate(filename: string, user: string, confirmed: bool) returns (slot: int)
      requires Valid()
      modifies catalog, table, cache
      ensures State() == HandleCreate(old(State()), filename, user, confirmed)
      ensures slot == (if Lookup(old(State()), filename).1 == -1 && FirstServer(old(servers[..]), 0) != -1 && confirmed
                       then FreeSlot(old(catalog[..]), 0) else -1)
    {
      var found := FindFileSlot(filename);
      if found != -1 {
        return -1;
      }
      var server := FindAvailableServer();
      if server == -1 || !confirmed {
        return -1;
      }
      slot := FindEmptyFileSlot();
      if slot == -1 {
        // the C code writes the catalog at index -1 here, and maps the name to it
        AddToHashmap(filename, -1);
        return;
      }
      EnterFile(slot, File(filename, server, user));
    }

    method OwnerMayChange(slot: int, user: string) returns (may: bool)
      ensures may == MayChange(State(), slot, user)
    {
      may := 0 <= slot < catalog.Length && catalog[slot].File? && catalog[slot].owner == user
        && catalog[slot].server < servers.Length && servers[catalog[slot].server];
    }

    /** DELETE: by the owner, while the storage server is there. */
    method HandleReqDelete(filename: string, user: string)
      requires Valid()
      modifies catalog, table, cache
      ensures State() == HandleDelete(old(State()), filename, user)
    {
      var slot := FindFileSlot(filename);
      var may := OwnerMayChange(slot, user);
      if may {
        DelistFile(slot);
      }
    }

    /** `strrchr`: the file name behind the last slash. */
    method BaseNameOf(path: string) returns (base: string)
      ensures base == BaseName(path)
    {
      var i := |path|;
      assert path[..i] == path && BaseName(path) + path[i..] == BaseName(path);
      while i > 0 && path[i - 1] != '/'
        invariant 0 <= i <= |path|
        invariant BaseName(path) == BaseName(path[..i]) + path[i..]
      {
        i := i - 1;
        assert path[..i + 1][..i] == path[..i] && path[i..] == [path[i]] + path[i + 1..];
      }
      base := path[i..];
    }

    /** MOVE: the old name leaves the index, the new path enters it. */
    method HandleReqMove(filename: string, folder: string, user: string, confirmed: bool)
      requires Valid()
      modifies catalog, table, cache
      ensures State() == HandleMove(old(State()), filename, folder, user, confirmed)
    {
      var slot := FindFileSlot(filename);
      var may := OwnerMayChange(slot, user);
      if may && confirmed {
        var base := BaseNameOf(filename);
        var file := catalog[slot];
        DelistFile(slot);
        EnterFile(slot, file.(name := folder + "/" + base));
      }
    }

    /** The files a registering storage server announces. */
    method HandleSsRegister(sock: nat, files: seq<(string, string)>)
      requires Valid() && sock < servers.Length
      modifies catalog, table, servers
      ensures State() == CatalogAll(SetServer(old(State()), sock, true), sock, files)
    {
      servers[sock] := true;
      var i := 0;
      assert files[0..] == files && State() == SetServer(old(State()), sock, true);
      while i < |files|
        invariant 0 <= i <= |files|
        invariant CatalogAll(State(), sock, files[i..]) == CatalogAll(SetServer(old(State()), sock, true), sock, files)
      {
        assert files[i..][0] == files[i] && files[i..][1..] == files[i + 1..];
        var slot := FindEmptyFileSlot();
        if slot != -1 {
          EnterFile(slot, File(files[i].0, sock, files[i].1));
        }
        i := i + 1;
      }
    }

    /** A storage server is gone: its files leave the index. */
    method HandleDisconnect(sock: nat)
      requires Valid() && sock < servers.Length
      modifies catalog, table, cache, servers
      ensures State() == NameIndex.HandleDisconnect(old(State()), sock)
    {
      if !servers[sock] {
        return;
      }
      servers[sock] := false;
      var i := 0;
      assert State() == SetServer(old(State()), sock, false);
      while i < catalog.Length
        invariant 0 <= i <= catalog.Length
        invariant DelistFrom(State(), sock, i) == NameIndex.HandleDisconnect(old(State()), sock)
      {
        if catalog[i].File? && catalog[i].server == sock {
          DelistFile(i);
        }
        i := i + 1;
      }
    }

    /** One request of a client, or a storage server that comes or goes, is one step of the index. */
    method Dispatch(e: Event)
      requires Valid() && (e.Register? || e.Disconnect? ==> e.sock < servers.Length)
      modifies catalog, table, cache, servers
      ensures State() == Step(old(State()), e)
      ensures old(Inv(State())) ==> (Inv(State()) <==> old(Guard(State(), e)))
    {
      if Inv(State()) {
        StepInvIff(State(), e);
      }
      match e
      case Find(name) => var slot := FindFileSlot(name);
      case Create(name, user, confirmed) => var slot := HandleReqCreate(name, user, confirmed);
      case Delete(name, user) => HandleReqDelete(name, user);
      case Move(name, folder, user, confirmed) => HandleReqMove(name, folder, user, confirmed);
      case Register(sock, files) => HandleSsRegister(sock, files);
      case Disconnect(sock) => HandleDisconnect(sock);
    }
  }
}
