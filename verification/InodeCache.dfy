/**
 The inode cache: which path the server last gave each inode number a handle for.
 Entries are added at the head, so a newer entry hides an older one of the same inode
 number; lookups and removals take the first that matches.
 */
module InodeCache {
  import opened Common

  /** A file handle; only the inode number is ever used to resolve it. */
  datatype Handle = Handle(inode: nat, timestamp: int)

  datatype Mapping = Mapping(handle: Handle, path: string)

  // --------------------------------------------------------------- specification

  /** The first mapping of an inode number. */
  function Resolve(cache: seq<Mapping>, inode: nat): Option<Mapping> {
    if cache == [] then None
    else if cache[0].handle.inode == inode then Some(cache[0])
    else Resolve(cache[1..], inode)
  }

  /** Without the first mapping of an inode number. */
  function DropInode(cache: seq<Mapping>, inode: nat): seq<Mapping> {
    if cache == [] then []
    else if cache[0].handle.inode == inode then cache[1..]
    else [cache[0]] + DropInode(cache[1..], inode)
  }

  /** Without the first mapping to a path. */
  function DropPath(cache: seq<Mapping>, path: string): seq<Mapping> {
    if cache == [] then []
    else if cache[0].path == path then cache[1..]
    else [cache[0]] + DropPath(cache[1..], path)
  }

  /** The first mapping to a path. */
  function FirstTo(cache: seq<Mapping>, path: string): Option<Mapping> {
    if cache == [] then None
    else if cache[0].path == path then Some(cache[0])
    else FirstTo(cache[1..], path)
  }

  /** With the first mapping to `path` moved to `path'`. */
  function Repath(cache: seq<Mapping>, path: string, path': string): seq<Mapping> {
    if cache == [] then []
    else if cache[0].path == path then [cache[0].(path := path')] + cache[1..]
    else [cache[0]] + Repath(cache[1..], path, path')
  }

  predicate HasPath(cache: seq<Mapping>, path: string) { exists m :: m in cache && m.path == path }

  // ------------------------------------------------------------------- properties

  /** Resolving finds a mapping of the inode number exactly when there is one. */
  lemma {:induction false} ResolveExactly(cache: seq<Mapping>, inode: nat)
    ensures var r := Resolve(cache, inode);
            if r.Some? then r.value in cache && r.value.handle.inode == inode
            else forall m :: m in cache ==> m.handle.inode != inode
  {
    if cache != [] {
      ResolveExactly(cache[1..], inode);
      assert cache == [cache[0]] + cache[1..];
    }
  }

  lemma {:induction false} FirstToExactly(cache: seq<Mapping>, path: string)
    ensures var r := FirstTo(cache, path);
            if r.Some? then r.value in cache && r.value.path == path else !HasPath(cache, path)
  {
    if cache != [] {
      FirstToExactly(cache[1..], path);
      assert cache == [cache[0]] + cache[1..];
    }
  }

  /** A mapping just added is what its inode number resolves to, and dropping it undoes the addition. */
  lemma AddThenDrop(cache: seq<Mapping>, m: Mapping)
    ensures Resolve([m] + cache, m.handle.inode) == Some(m)
    ensures DropInode([m] + cache, m.handle.inode) == cache
    ensures forall i: nat :: i != m.handle.inode ==> Resolve([m] + cache, i) == Resolve(cache, i)
  {
    assert ([m] + cache)[1..] == cache;
  }

  /** Dropping by inode number loses one mapping, of that number; every other number resolves as before. */
  lemma {:induction false} DropInodeExactly(cache: seq<Mapping>, inode: nat, other: nat)
    ensures var r := DropInode(cache, inode);
            && (forall m :: m in r ==> m in cache)
            && (Resolve(cache, inode).None? ==> r == cache)
            && (Resolve(cache, inode).Some? ==> multiset(cache) == multiset(r) + multiset{Resolve(cache, inode).value})
            && (other != inode ==> Resolve(r, other) == Resolve(cache, other))
  {
    if cache != [] {
      assert cache == [cache[0]] + cache[1..];
      ResolveExactly(cache[1..], inode);
      DropInodeExactly(cache[1..], inode, other);
      var r := DropInode(cache, inode);
      if cache[0].handle.inode != inode {
        assert r[1..] == DropInode(cache[1..], inode);
      }
    }
  }

  /** Dropping by path loses one mapping to it if there is one; mappings to other paths stay. */
  lemma {:induction false} DropPathExactly(cache: seq<Mapping>, path: string)
    ensures var r := DropPath(cache, path);
            && (forall m :: m in r ==> m in cache)
            && (forall m :: m in cache && m.path != path ==> m in r)
            && (!HasPath(cache, path) ==> r == cache)
            && (HasPath(cache, path) ==> |r| == |cache| - 1)
  {
    if cache != [] {
      assert cache == [cache[0]] + cache[1..];
      DropPathExactly(cache[1..], path);
      if cache[0].path != path {
        assert HasPath(cache, path) <==> HasPath(cache[1..], path);
      }
    }
  }

  /** Moving a mapping to another path and back restores the cache, if nothing was at that path. */
  lemma {:induction false} RepathBack(cache: seq<Mapping>, path: string, path': string)
    requires !HasPath(cache, path')
    ensures Repath(Repath(cache, path, path'), path', path) == cache
  {
    if cache != [] {
      assert cache == [cache[0]] + cache[1..];
      var moved := Repath(cache, path, path');
      assert cache[0].path != path';
      if cache[0].path == path {
        assert moved[1..] == cache[1..];
      } else {
        assert !HasPath(cache[1..], path');
        RepathBack(cache[1..], path, path');
        assert moved[1..] == Repath(cache[1..], path, path');
      }
    }
  }

  /** Behind a part without a match, the first match is the first of the rest. */
  lemma {:induction false} SplitAtInode(cache: seq<Mapping>, inode: nat, i: nat)
    requires i <= |cache| && Resolve(cache[..i], inode).None?
    ensures i == |cache| ==> DropInode(cache, inode) == cache && Resolve(cache, inode).None?
    ensures i < |cache| && cache[i].handle.inode == inode ==>
              DropInode(cache, inode) == cache[..i] + cache[i + 1..] && Resolve(cache, inode) == Some(cache[i])
    ensures i < |cache| && cache[i].handle.inode != inode ==> Resolve(cache[..i + 1], inode).None?
  {
    if i > 0 {
      assert cache[..i][1..] == cache[1..][..i - 1];
      SplitAtInode(cache[1..], inode, i - 1);
      assert i < |cache| ==> [cache[0]] + (cache[1..][..i - 1] + cache[1..][i..]) == cache[..i] + cache[i + 1..];
      assert i < |cache| ==> cache[..i + 1][1..] == cache[1..][..i];
    }
  }

  lemma {:induction false} SplitAtPath(cache: seq<Mapping>, path: string, i: nat)
    requires i <= |cache| && !HasPath(cache[..i], path)
    ensures i == |cache| ==> DropPath(cache, path) == cache && !HasPath(cache, path)
    ensures i < |cache| && cache[i].path == path ==>
              DropPath(cache, path) == cache[..i] + cache[i + 1..] && HasPath(cache, path)
    ensures i < |cache| && cache[i].path != path ==> !HasPath(cache[..i + 1], path)
  {
    if i > 0 {
      assert cache[..i][0] == cache[0] && cache[..i][1..] == cache[1..][..i - 1];
      SplitAtPath(cache[1..], path, i - 1);
      assert i < |cache| ==> [cache[0]] + (cache[1..][..i - 1] + cache[1..][i..]) == cache[..i] + cache[i + 1..];
      assert i < |cache| ==> cache[..i + 1] == cache[..i] + [cache[i]];
    }
  }

  lemma {:induction false} RepathAt(cache: seq<Mapping>, path: string, path': string, i: nat)
    requires i <= |cache| && !HasPath(cache[..i], path)
    ensures i == |cache| ==> Repath(cache, path, path') == cache
    ensures i < |cache| && cache[i].path == path ==>
              Repath(cache, path, path') == cache[i := cache[i].(path := path')]
  {
    if i > 0 {
      assert cache[..i][0] == cache[0] && cache[..i][1..] == cache[1..][..i - 1];
      RepathAt(cache[1..], path, path', i - 1);
    }
  }

  // --------------------------------------------------------------- implementation

  class Cache {
    var mappings: seq<Mapping>

    constructor ()
      ensures mappings == []
    {
      mappings := [];
    }

    method Add(handle: Handle, path: string)
      modifies this
      ensures mappings == [Mapping(handle, path)] + old(mappings)
    {
      mappings := [Mapping(handle, path)] + mappings;
    }

    /** Walks behind the head; the head itself is read without looking whether there is one. */
    method RemoveByInode(inode: nat) returns (found: bool)
      requires mappings != []
      modifies this
      ensures mappings == DropInode(old(mappings), inode)
      ensures found <==> Resolve(old(mappings), inode).Some?
    {
      ghost var all := mappings;
      var i := 0;
      while i < |mappings|
        invariant 0 <= i <= |all| && mappings == all
        invariant Resolve(all[..i], inode).None?
      {
        SplitAtInode(all, inode, i);
        if mappings[i].handle.inode == inode {
          mappings := mappings[..i] + mappings[i + 1..];
          return true;
        }
        i := i + 1;
      }
      SplitAtInode(all, inode, i);
      return false;
    }

    method RemoveByPath(path: string) returns (found: bool)
      requires mappings != []
      modifies this
      ensures mappings == DropPath(old(mappings), path)
      ensures found <==> HasPath(old(mappings), path)
    {
      ghost var all := mappings;
      var i := 0;
      while i < |mappings|
        invariant 0 <= i <= |all| && mappings == all
        invariant !HasPath(all[..i], path)
      {
        SplitAtPath(all, path, i);
        if mappings[i].path == path {
          mappings := mappings[..i] + mappings[i + 1..];
          return true;
        }
        i := i + 1;
      }
      SplitAtPath(all, path, i);
      return false;
    }

    method UpdatePath(path: string, path': string) returns (found: bool)
      modifies this
      ensures mappings == Repath(old(mappings), path, path')
      ensures found <==> HasPath(old(mappings), path)
    {
      ghost var all := mappings;
      var i := 0;
      while i < |mappings|
        invariant 0 <= i <= |all| && mappings == all
        invariant !HasPath(all[..i], path)
      {
        SplitAtPath(all, path, i);
        RepathAt(all, path, path', i);
        if mappings[i].path == path {
          mappings := mappings[i := mappings[i].(path := path')];
          return true;
        }
        i := i + 1;
      }
      SplitAtPath(all, path, i);
      RepathAt(all, path, path', i);
      return false;
    }

    /** Both lookups: one returns the path, the other the handle. */
    method Find(inode: nat) returns (mapping: Option<Mapping>)
      ensures mapping == Resolve(mappings, inode)
    {
      assert mappings[0..] == mappings;
      var i := 0;
      while i < |mappings|
        invariant 0 <= i <= |mappings|
        invariant Resolve(mappings, inode) == Resolve(mappings[i..], inode)
      {
        if mappings[i].handle.inode == inode {
          return Some(mappings[i]);
        }
        assert mappings[i..][1..] == mappings[i + 1..];
        i := i + 1;
      }
      return None;
    }
  }
}
