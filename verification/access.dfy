/** Access lists: the name server's, which refine a map, and the storage server's, which need not. */
module AccessLists {
  import opened Text

  /** C's enumeration: an integer, as it is printed and read. */
  type Permission = int

  const NO_PERM: Permission := 0

  datatype Access = Access(user: string, perm: Permission)

  const MAX_PERMISSIONS_PER_FILE := 50

  function IndexOf(list: seq<Access>, user: string, i: nat): (r: int)
    requires i <= |list|
    ensures -1 <= r < |list| && (0 <= r ==> i <= r && list[r].user == user)
    ensures forall j | i <= j < (if r == -1 then |list| else r) :: list[j].user != user
    decreases |list| - i
  {
    if i == |list| then -1 else if list[i].user == user then i else IndexOf(list, user, i + 1)
  }

  /** What a user may do, by the first entry with the name; owners are decided elsewhere. */
  function PermissionOf(list: seq<Access>, user: string): Permission {
    var i := IndexOf(list, user, 0);
    if i == -1 then NO_PERM else list[i].perm
  }

  predicate UsersDistinct(list: seq<Access>) {
    forall i, j | 0 <= i < j < |list| :: list[i].user != list[j].user
  }

  /** The user is listed, or the list is not full. */
  predicate HasRoom(list: seq<Access>, user: string) {
    IndexOf(list, user, 0) != -1 || |list| < MAX_PERMISSIONS_PER_FILE
  }

  /** The name server's grant: change the entry, or append one while there is room. */
  function Grant(list: seq<Access>, user: string, perm: Permission): seq<Access> {
    var i := IndexOf(list, user, 0);
    if i != -1 then list[i := Access(user, perm)]
    else if |list| >= MAX_PERMISSIONS_PER_FILE then list
    else list + [Access(user, perm)]
  }

  /** The name server's revocation: all entries of the user, the others in order. */
  function Revoke(list: seq<Access>, user: string): seq<Access> {
    if list == [] then [] else (if list[0].user == user then [] else [list[0]]) + Revoke(list[1..], user)
  }

  lemma IndexIs(list: seq<Access>, user: string, i: nat)
    requires i < |list| && list[i].user == user && forall j | 0 <= j < i :: list[j].user != user
    ensures IndexOf(list, user, 0) == i
  {
  }

  /** A grant that finds room sets that user's permission and no other. */
  lemma GrantRefinesMap(list: seq<Access>, user: string, perm: Permission, other: string)
    requires UsersDistinct(list) && |list| <= MAX_PERMISSIONS_PER_FILE
    ensures UsersDistinct(Grant(list, user, perm)) && |Grant(list, user, perm)| <= MAX_PERMISSIONS_PER_FILE
    ensures PermissionOf(Grant(list, user, perm), other)
         == if other == user && HasRoom(list, user) then perm else PermissionOf(list, other)
  {
    var list' := Grant(list, user, perm);
    var i, k := IndexOf(list, user, 0), IndexOf(list, other, 0);
    if k != -1 {
      IndexIs(list', other, k);
    } else if other == user && |list| < MAX_PERMISSIONS_PER_FILE {
      IndexIs(list', other, |list|);
    } else {
      assert forall j | 0 <= j < |list'| :: list'[j].user != other;
    }
  }

  lemma {:induction false} RevokeFacts(list: seq<Access>, user: string)
    ensures |Revoke(list, user)| <= |list|
    ensures forall a | a in Revoke(list, user) :: a in list && a.user != user
    ensures UsersDistinct(list) ==> UsersDistinct(Revoke(list, user))
  {
    if list != [] {
      RevokeFacts(list[1..], user);
      assert forall j | 0 <= j < |list[1..]| :: list[1..][j] == list[j + 1];
      var rest := Revoke(list[1..], user);
      forall j | 0 <= j < |rest|
        ensures UsersDistinct(list) ==> rest[j].user != list[0].user
      {
        assert rest[j] in list[1..];
      }
    }
  }

  lemma {:induction false} IndexSkip(list: seq<Access>, user: string, i: nat)
    requires 0 < i <= |list|
    ensures var k := IndexOf(list[1..], user, i - 1); IndexOf(list, user, i) == if k == -1 then -1 else k + 1
    decreases |list| - i
  {
    if i < |list| && list[i].user != user {
      IndexSkip(list, user, i + 1);
    }
  }

  lemma PermissionTail(list: seq<Access>, user: string)
    requires list != []
    ensures PermissionOf(list, user) == if list[0].user == user then list[0].perm else PermissionOf(list[1..], user)
  {
    IndexSkip(list, user, 1);
  }

  /** A revocation takes that user's permission away and leaves the others'. */
  lemma {:induction false} RevokeRefinesMap(list: seq<Access>, user: string, other: string)
    ensures PermissionOf(Revoke(list, user), other) == if other == user then NO_PERM else PermissionOf(list, other)
  {
    if list != [] {
      RevokeRefinesMap(list[1..], user, other);
      PermissionTail(list, other);
      if list[0].user == user {
        assert Revoke(list, user) == Revoke(list[1..], user);
      } else {
        var list' := Revoke(list, user);
        assert list'[1..] == Revoke(list[1..], user);
        PermissionTail(list', other);
      }
    }
  }

  // ---------- the storage server's list ----------

  /** The storage server appends without looking, while there is room. */
  function StoredGrant(list: seq<Access>, user: string, perm: Permission): seq<Access> {
    if |list| < MAX_PERMISSIONS_PER_FILE then list + [Access(user, perm)] else list
  }

  /** The storage server removes the first entry only. */
  function StoredRevoke(list: seq<Access>, user: string): seq<Access> {
    var i := IndexOf(list, user, 0);
    if i == -1 then list else list[..i] + list[i + 1..]
  }

  /** The stored grant takes effect exactly for users that had no entry, or the same permission. */
  lemma StoredGrantIff(list: seq<Access>, user: string, perm: Permission)
    requires |list| < MAX_PERMISSIONS_PER_FILE
    ensures PermissionOf(StoredGrant(list, user, perm), user) == perm
       <==> IndexOf(list, user, 0) == -1 || PermissionOf(list, user) == perm
  {
    var list', i := StoredGrant(list, user, perm), IndexOf(list, user, 0);
    IndexIs(list', user, if i == -1 then |list| else i);
  }

  /** The stored revocation leaves nothing of the user exactly when there was at most one entry. */
  lemma StoredRevokeIff(list: seq<Access>, user: string)
    ensures var i := IndexOf(list, user, 0);
            IndexOf(StoredRevoke(list, user), user, 0) == -1 <==> i == -1 || IndexOf(list, user, i + 1) == -1
  {
    var list', i := StoredRevoke(list, user), IndexOf(list, user, 0);
    if i != -1 {
      var k := IndexOf(list, user, i + 1);
      if k != -1 {
        assert list'[k - 1] == list[k];
      } else {
        assert forall j | 0 <= j < |list'| :: list'[j] == if j < i then list[j] else list[j + 1];
      }
    }
  }

  /** On lists without duplicates both servers do the same; only a grant to a listed user differs. */
  lemma StoredAgrees(list: seq<Access>, user: string, perm: Permission)
    requires UsersDistinct(list)
    ensures StoredRevoke(list, user) == Revoke(list, user)
    ensures IndexOf(list, user, 0) == -1 ==> StoredGrant(list, user, perm) == Grant(list, user, perm)
  {
    RevokeOne(list, user);
  }

  /** A grant to a user who has an entry already leaves a second one behind: after a revocation that one
      still counts. */
  lemma RepeatedGrantSurvives(list: seq<Access>, user: string, perm: Permission)
    requires |list| < MAX_PERMISSIONS_PER_FILE && IndexOf(list, user, 0) != -1
    requires IndexOf(list, user, IndexOf(list, user, 0) + 1) == -1
    ensures PermissionOf(StoredRevoke(StoredGrant(list, user, perm), user), user) == perm
  {
    var a, i := Access(user, perm), IndexOf(list, user, 0);
    var rest := list[..i] + list[i + 1..];
    StoredRevokeIff(list, user);
    IndexIs(list + [a], user, i);
    RemoveBefore(list, i, a);
    IndexIs(rest + [a], user, |rest|);
  }

  lemma RemoveBefore(list: seq<Access>, i: nat, a: Access)
    requires i < |list|
    ensures (list + [a])[..i] + (list + [a])[i + 1..] == list[..i] + list[i + 1..] + [a]
  {
  }

  /** The name server's revocation leaves the other entries in order. */
  lemma {:induction false} RevokeKeepsOrder(list: seq<Access>, user: string)
    ensures Subsequence(Revoke(list, user), list)
    ensures forall a :: a in Revoke(list, user) <==> a in list && a.user != user
  {
    if list != [] {
      var rest := Revoke(list[1..], user);
      RevokeKeepsOrder(list[1..], user);
      assert list == [list[0]] + list[1..];
      if list[0].user == user {
        assert [] + rest == rest;
        SubsequenceSkip(rest, list);
      } else {
        assert ([list[0]] + rest)[1..] == rest;
      }
    }
  }

  lemma StoredRevokeTail(list: seq<Access>, user: string)
    requires list != []
    ensures StoredRevoke(list, user)
         == if list[0].user == user then list[1..] else [list[0]] + StoredRevoke(list[1..], user)
  {
    IndexSkip(list, user, 1);
    var i := IndexOf(list, user, 0);
    if i > 0 {
      assert list[..i] == [list[0]] + list[1..][..i - 1];
      assert list[i + 1..] == list[1..][i..];
    } else if i == -1 {
      assert list == [list[0]] + list[1..];
    } else {
      assert list[..0] + list[1..] == list[1..];
    }
  }

  lemma {:induction false} RevokeOne(list: seq<Access>, user: string)
    requires UsersDistinct(list)
    ensures StoredRevoke(list, user) == Revoke(list, user)
  {
    if list != [] {
      StoredRevokeTail(list, user);
      if list[0].user == user {
        RevokeNone(list[1..], user);
      } else {
        RevokeOne(list[1..], user);
      }
    }
  }

  lemma {:induction false} RevokeNone(list: seq<Access>, user: string)
    requires forall j | 0 <= j < |list| :: list[j].user != user
    ensures Revoke(list, user) == list
  {
    if list != [] {
      RevokeNone(list[1..], user);
      assert list == [list[0]] + list[1..];
    }
  }

  // ---------- in place ----------

  /** The access list of a catalog entry: a fixed array and a count. */
  class AccessList {
    const list: array<Access>
    var count: nat

    constructor ()
      ensures Valid() && Contents() == [] && fresh(list)
    {
      list := new Access[MAX_PERMISSIONS_PER_FILE](_ => Access("", NO_PERM));
      count := 0;
    }

    ghost predicate Valid()
      reads this
    {
      list.Length == MAX_PERMISSIONS_PER_FILE && count <= list.Length
    }

    ghost function Contents(): seq<Access>
      requires Valid()
      reads this, list
    {
      list[..count]
    }

    /** A new file has no entries. */
    method Clear()
      requires Valid()
      modifies this`count
      ensures Valid() && Contents() == []
    {
      count := 0;
    }

    method Find(user: string) returns (index: int)
      requires Valid()
      ensures index == IndexOf(Contents(), user, 0)
    {
      index := 0;
      while index < count
        invariant 0 <= index <= count
        invariant IndexOf(Contents(), user, index) == IndexOf(Contents(), user, 0)
      {
        if list[index].user == user {
          return;
        }
        index := index + 1;
      }
      index := -1;
    }

    /** ADDACCESS, and the grant of an approved request. */
    method Add(user: string, perm: Permission) returns (ok: bool)
      requires Valid()
      modifies this`count, list
      ensures Valid() && Contents() == Grant(old(Contents()), user, perm)
      ensures ok <==> HasRoom(old(Contents()), user)
    {
      var existing := Find(user);
      if existing != -1 {
        list[existing] := Access(user, perm);
        return true;
      }
      if count >= MAX_PERMISSIONS_PER_FILE {
        return false;
      }
      list[count] := Access(user, perm);
      count := count + 1;
      ok := true;
    }

    /** Close the gap at `i`. */
    method RemoveAt(i: nat)
      requires Valid() && i < count
      modifies this`count, list
      ensures Valid() && Contents() == old(Contents())[..i] + old(Contents())[i + 1..]
    {
      var j := i;
      while j < count - 1
        invariant i <= j <= count - 1 && count == old(count)
        invariant forall k | 0 <= k < i :: list[k] == old(list[k])
        invariant forall k | i <= k < j :: list[k] == old(list[k + 1])
        invariant forall k | j <= k < count :: list[k] == old(list[k])
      {
        list[j] := list[j + 1];
        j := j + 1;
      }
      count := count - 1;
    }

    /** REMACCESS: the nested loop that removes every entry of the user. */
    method Remove(user: string) returns (removed: nat)
      requires Valid()
      modifies this`count, list
      ensures Valid() && Contents() == Revoke(old(Contents()), user)
      ensures removed == |old(Contents())| - |Contents()|
    {
      removed := 0;
      var i := 0;
      assert Contents()[0..] == Contents();
      while i < count
        invariant Valid() && 0 <= i <= count && removed + count == old(count)
        invariant Contents()[..i] + Revoke(Contents()[i..], user) == Revoke(old(Contents()), user)
        decreases count - i
      {
        RevokeStep(Contents(), i, user);
        if list[i].user == user {
          RemoveAt(i);
          removed := removed + 1;
        } else {
          i := i + 1;
        }
      }
      assert Contents()[i..] == [] && Contents()[..i] == Contents();
    }
  }

  /** One turn of the removal loop: close the gap, or go past another user's entry. */
  lemma RevokeStep(list: seq<Access>, i: nat, user: string)
    requires i < |list|
    ensures if list[i].user == user then
              var list' := list[..i] + list[i + 1..];
              list'[..i] + Revoke(list'[i..], user) == list[..i] + Revoke(list[i..], user)
            else list[..i + 1] + Revoke(list[i + 1..], user) == list[..i] + Revoke(list[i..], user)
  {
    assert list[i..][0] == list[i] && list[i..][1..] == list[i + 1..];
    if list[i].user == user {
      var list' := list[..i] + list[i + 1..];
      assert list'[..i] == list[..i] && list'[i..] == list[i + 1..];
    } else {
      assert list[..i + 1] == list[..i] + [list[i]];
    }
  }
}
