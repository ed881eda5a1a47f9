/** That cache and file system agree, exactly when, and what becomes of the handles given out. */
module FileHandlesProof {
  import opened Common
  import opened InodeCache
  import opened FileHandles

  // -------------------------------------------------------------------- agreement

  predicate Names(fs: FileSystem, m: Mapping) { fs.Has(m.path) && fs.Get(m.path).inode == m.handle.inode }

  /** Every mapping's path names its inode number. */
  predicate Sound(s: State) {
    forall m {:trigger Names(s.fs, m)} {:trigger m in s.cache} :: m in s.cache ==> Names(s.fs, m)
  }

  predicate IsDirectory(fs: FileSystem, path: string) { fs.Has(path) && fs.Get(path).kind.Directory? }

  /** Only directories are mapped more than once to one spelling. */
  predicate FilesOnce(fs: FileSystem, cache: seq<Mapping>) {
    cache == [] ||
    ((IsDirectory(fs, cache[0].path) || !HasPath(cache[1..], cache[0].path)) && FilesOnce(fs, cache[1..]))
  }

  predicate Good(s: State) { Sound(s) && FilesOnce(s.fs, s.cache) }

  /** A file system in which the mapped directories still are directories. */
  lemma {:induction false} OnceElsewhere(fs: FileSystem, fs': FileSystem, cache: seq<Mapping>)
    requires FilesOnce(fs, cache)
    requires forall m :: m in cache && IsDirectory(fs, m.path) ==> IsDirectory(fs', m.path)
    ensures FilesOnce(fs', cache)
  {
    if cache != [] {
      assert cache[0] in cache;
      OnceElsewhere(fs, fs', cache[1..]);
    }
  }

  lemma {:induction false} OnceAfterDropInode(fs: FileSystem, cache: seq<Mapping>, inode: nat)
    requires FilesOnce(fs, cache)
    ensures FilesOnce(fs, DropInode(cache, inode))
  {
    if cache != [] && cache[0].handle.inode != inode {
      OnceAfterDropInode(fs, cache[1..], inode);
      DropInodeExactly(cache[1..], inode, 0);
      assert DropInode(cache, inode)[1..] == DropInode(cache[1..], inode);
    }
  }

  /** Dropping the mapping of a file leaves none to that spelling of its path. */
  lemma {:induction false} DropFile(fs: FileSystem, cache: seq<Mapping>, path: string)
    requires FilesOnce(fs, cache) && !IsDirectory(fs, path)
    ensures FilesOnce(fs, DropPath(cache, path)) && !HasPath(DropPath(cache, path), path)
  {
    if cache != [] && cache[0].path != path {
      DropFile(fs, cache[1..], path);
      DropPathExactly(cache[1..], path);
      assert DropPath(cache, path)[1..] == DropPath(cache[1..], path);
    }
  }

  /** A new mapping that names its file, to a directory or to a path not mapped yet. */
  lemma AddKeepsGood(s: State, m: Mapping)
    requires Good(s) && Names(s.fs, m)
    requires IsDirectory(s.fs, m.path) || !HasPath(s.cache, m.path)
    ensures Good(s.(cache := [m] + s.cache))
  {
    assert ([m] + s.cache)[1..] == s.cache;
  }

  /** More names for files do not matter to the mappings. */
  lemma ExtendKeepsGood(s: State, path: string, node: Node)
    requires Good(s) && !s.fs.Has(path) && s.fs.Reaches(path)
    ensures Good(s.(fs := s.fs.With(path, node))) && !HasPath(s.cache, path) && s.fs.With(path, node).Has(path)
  {
    var fs' := s.fs.With(path, node);
    forall m | m in s.cache ensures Names(fs', m) && fs'.Get(m.path) == s.fs.Get(m.path) {
      assert Names(s.fs, m);
    }
    OnceElsewhere(s.fs, fs', s.cache);
  }

  lemma DropInodeKeepsGood(s: State, inode: nat)
    requires Good(s)
    ensures Good(s.(cache := DropInode(s.cache, inode)))
  {
    OnceAfterDropInode(s.fs, s.cache, inode);
    DropInodeExactly(s.cache, inode, 0);
  }

  /** A mapping other than to this path leads to the file at it, or through it as a link. */
  predicate UsedElsewhere(s: State, path: string) {
    exists m :: m in s.cache && m.path != path && LeadsTo(s.fs, m.path, path)
  }

  predicate LeadsTo(fs: FileSystem, path: string, name: string) {
    fs.canon(path) == fs.canon(name) || fs.canon(name) in fs.via(path)
  }

  /** Removing a name keeps the agreement if and only if no mapping uses it elsewhere. */
  lemma UnlinkAgreesExactly(s: State, path: string)
    requires Good(s) && s.fs.Has(path) && !IsDirectory(s.fs, path)
    ensures var t := State(s.fs.Without(path), DropPath(s.cache, path));
            && (Sound(t) <==> !UsedElsewhere(s, path))
            && (Sound(t) ==> Good(t))
  {
    var t := State(s.fs.Without(path), DropPath(s.cache, path));
    DropFile(s.fs, s.cache, path);
    DropPathExactly(s.cache, path);
    forall m | m in s.cache ensures Names(s.fs, m) {}
    if UsedElsewhere(s, path) {
      var m :| m in s.cache && m.path != path && LeadsTo(s.fs, m.path, path);
      assert m in t.cache && !Names(t.fs, m);
    } else {
      forall m | m in t.cache ensures Names(t.fs, m) && t.fs.Get(m.path) == s.fs.Get(m.path) {
        assert m in s.cache && m.path != path && !LeadsTo(s.fs, m.path, path);
      }
      OnceElsewhere(s.fs, t.fs, t.cache);
    }
  }

  /** A file that does not resolve is not mapped. */
  lemma UnknownIsUnmapped(s: State, path: string)
    requires Sound(s) && s.fs.Has(path) && Resolve(s.cache, s.fs.Get(path).inode).None?
    ensures !HasPath(s.cache, path)
  {
    ResolveExactly(s.cache, s.fs.Get(path).inode);
    forall m | m in s.cache ensures m.path != path {
      assert Names(s.fs, m);
    }
  }

  lemma LookupKeepsGood(s: State, dir: nat, name: string, env: Env)
    requires Good(s)
    ensures Good(Lookup(s, dir, name, env).state)
  {
    var at := LookupPath(s, dir, name, env);
    if at.At? {
      var inode := s.fs.Get(at.path).inode;
      var t := s;
      if Resolve(s.cache, inode).None? && MakeHandle(s, at.path, env).Some? {
        UnknownIsUnmapped(s, at.path);
        var m := MakeHandle(s, at.path, env).value;
        AddKeepsGood(s, m);
        t := s.(cache := [m] + s.cache);
      }
      ResolveExactly(s.cache, inode);
      DropInodeKeepsGood(t, inode);
    }
  }

  lemma CreateKeepsGood(s: State, dir: nat, name: string, env: Env)
    requires Good(s)
    ensures Good(Create(s, dir, name, env).state)
  {
    var at := NewPath(s, dir, name, env);
    if at.At? {
      var t := s.(fs := s.fs.With(at.path, Node(env.inode, Regular)));
      var m := Mapping(Handle(env.inode, env.now), at.path);
      if s.fs.Reaches(at.path) {
        ExtendKeepsGood(s, at.path, Node(env.inode, Regular));
        AddKeepsGood(t, m);
      }
      AddThenDrop(t.cache, m);
    }
  }

  /** The request does not remove a name that mappings use elsewhere. */
  predicate SafeRemoval(s: State, op: Op) {
    op.RemoveOp? ==>
      var at := RemovePath(s, op.dir, op.name, op.env);
      at.At? && op.env.call.None? ==> !UsedElsewhere(s, at.path)
  }

  /** A request keeps the agreement of cache and file system if and only if it is no unsafe removal. */
  lemma StepAgreesExactly(s: State, op: Op)
    requires Good(s)
    ensures Sound(Apply(s, op).state) <==> SafeRemoval(s, op)
    ensures SafeRemoval(s, op) ==> Good(Apply(s, op).state)
  {
    match op
    case MntOp(path, env) =>
      if Mnt(s, path, env).reply.Granted? {
        AddKeepsGood(s, MakeHandle(s, path, env).value);
      }
    case GetAttrOp(_, _) =>
    case LookupOp(dir, name, env) => LookupKeepsGood(s, dir, name, env);
    case CreateOp(dir, name, env) => CreateKeepsGood(s, dir, name, env);
    case LinkOp(target, dir, name, env) =>
      var from, at := LinkTarget(s, target, env), NewPath(s, dir, name, env);
      if from.At? && at.At? && s.fs.Reaches(at.path) {
        ExtendKeepsGood(s, at.path, s.fs.Get(from.path));
      }
    case RemoveOp(dir, name, env) =>
      var at := RemovePath(s, dir, name, env);
      if at.At? {
        UnlinkAgreesExactly(s, at.path);
      }
  }

  predicate SafeRemovals(fs: FileSystem, ops: seq<Op>) {
    ops == [] ||
    (SafeRemovals(fs, ops[..|ops| - 1]) && SafeRemoval(Run(fs, ops[..|ops| - 1]), ops[|ops| - 1]))
  }

  /** The cache agrees with the file system at the end of the run and at every point before. */
  predicate AlwaysSound(fs: FileSystem, ops: seq<Op>) {
    Sound(Run(fs, ops)) && (ops == [] || AlwaysSound(fs, ops[..|ops| - 1]))
  }

  /**
   In every run each mapping's path names its inode number all the time, if and only if no
   REMOVE takes away a name that a mapping uses elsewhere: as the file it leads to under
   another spelling, or as a link on its way.
   */
  lemma {:induction false} CacheAgreesExactly(fs: FileSystem, ops: seq<Op>)
    ensures AlwaysSound(fs, ops) <==> SafeRemovals(fs, ops)
    ensures SafeRemovals(fs, ops) ==> Good(Run(fs, ops))
  {
    if ops != [] {
      CacheAgreesExactly(fs, ops[..|ops| - 1]);
      if SafeRemovals(fs, ops[..|ops| - 1]) {
        StepAgreesExactly(Run(fs, ops[..|ops| - 1]), ops[|ops| - 1]);
      }
    }
  }

  /** When every path has one spelling, all runs agree. */
  lemma {:induction false} PlainPathsAgree(fs: FileSystem, ops: seq<Op>)
    requires forall p :: fs.canon(p) == p && fs.via(p) == {}
    ensures Run(fs, ops).fs.canon == fs.canon && Run(fs, ops).fs.via == fs.via && SafeRemovals(fs, ops)
  {
    if ops != [] {
      PlainPathsAgree(fs, ops[..|ops| - 1]);
      StepKeepsCanon(Run(fs, ops[..|ops| - 1]), ops[|ops| - 1]);
    }
  }

  lemma StepKeepsCanon(s: State, op: Op)
    ensures Apply(s, op).state.fs.canon == s.fs.canon && Apply(s, op).state.fs.via == s.fs.via
  {
  }

  /** A request without faults. */
  const CALM := Env(false, false, false, true, Allowed, None, false, false, false, 0, 0)

  /**
   The requests that break it: a file is looked up under one name, and another name that leads
   to it or that is a link on its way is removed.  The mapping stays and names nothing.
   */
  lemma LookupThenRemoveDisagree(s: State, dir: nat, name: string, other: string)
    requires Good(s) && OpenDirectory(s, dir, CALM).At? && name != other
    requires var d := OpenDirectory(s, dir, CALM).path; var p, q := PathIn(d, name), PathIn(d, other);
             && s.fs.Has(p) && s.fs.Has(q) && !IsDirectory(s.fs, q) && LeadsTo(s.fs, p, q)
             && !Known(s, s.fs.Get(p).inode)
    ensures var t := Lookup(s, dir, name, CALM).state; var r := Remove(t, dir, other, CALM);
            Good(t) && r.reply.Done? && !Sound(r.state)
  {
    var d := OpenDirectory(s, dir, CALM).path;
    var p, q := PathIn(d, name), PathIn(d, other);
    var m := Mapping(Handle(s.fs.Get(p).inode, 0), p);
    var t := Lookup(s, dir, name, CALM).state;
    assert t == s.(cache := [m] + s.cache);
    LookupKeepsGood(s, dir, name, CALM);
    ResolveExactly(s.cache, dir);
    AddThenDrop(s.cache, m);
    assert Names(s.fs, Resolve(s.cache, dir).value);
    assert p != q by { assert p[|d| + 1..] == name && q[|d| + 1..] == other; }
    UnlinkAgreesExactly(t, q);
    assert m in t.cache && UsedElsewhere(t, q);
  }

  lemma RunAppend(fs: FileSystem, ops: seq<Op>, op: Op)
    ensures Run(fs, ops + [op]) == Apply(Run(fs, ops), op).state
    ensures IsRun(fs, ops + [op]) <==> IsRun(fs, ops) && Possible(Run(fs, ops), op)
    ensures GrantedInodes(fs, ops + [op]) == GrantedInodes(fs, ops) +
            if Apply(Run(fs, ops), op).reply.Granted? then {Apply(Run(fs, ops), op).reply.handle.inode} else {}
  {
    assert (ops + [op])[..|ops|] == ops;
  }

  /** The state after MNT of a directory with inode number 1, from an empty cache. */
  function Mounted(fs: FileSystem, path: string): State { State(fs, [Mapping(Handle(1, 0), path)]) }

  lemma MountedRun(fs: FileSystem, path: string)
    requires fs.Has(path) && fs.Get(path) == Node(1, Directory)
    ensures IsRun(fs, [MntOp(path, CALM)]) && Run(fs, [MntOp(path, CALM)]) == Mounted(fs, path)
    ensures Good(Mounted(fs, path)) && OpenDirectory(Mounted(fs, path), 1, CALM) == At(path)
    ensures forall i: nat :: i != 1 ==> !Known(Mounted(fs, path), i)
  {
    RunAppend(fs, [], MntOp(path, CALM));
    var cache := Mounted(fs, path).cache;
    assert [] + [MntOp(path, CALM)] == [MntOp(path, CALM)] && cache[1..] == [];
    forall i: nat | i != 1 ensures Resolve(cache, i) == None {}
  }

  /** A file system with two spellings of a file. */
  const SPELLINGS := FileSystem(p => if p == "/s/./a" then "/s/a" else p, p => {},
                                map["/s" := Node(1, Directory), "/s/a" := Node(2, Regular)])

  lemma TwoSpellings()
    ensures PathIn("/s", "./a") == "/s/./a" && PathIn("/s", "a") == "/s/a"
    ensures SPELLINGS.Has("/s") && SPELLINGS.Has("/s/./a") && SPELLINGS.Has("/s/a")
    ensures SPELLINGS.Get("/s") == Node(1, Directory) && SPELLINGS.Get("/s/./a") == Node(2, Regular)
    ensures SPELLINGS.canon("/s/./a") == SPELLINGS.canon("/s/a") == "/s/a" && SPELLINGS.canon("/s") == "/s"
  {
  }

  /** Such a run, with two spellings of a file. */
  lemma DotSlashDisagrees()
    ensures var ops := [MntOp("/s", CALM), LookupOp(1, "./a", CALM), RemoveOp(1, "a", CALM)];
            IsRun(SPELLINGS, ops) && !Sound(Run(SPELLINGS, ops))
  {
    var mnt, lookup, remove := MntOp("/s", CALM), LookupOp(1, "./a", CALM), RemoveOp(1, "a", CALM);
    TwoSpellings();
    MountedRun(SPELLINGS, "/s");
    LookupThenRemoveDisagree(Mounted(SPELLINGS, "/s"), 1, "./a", "a");
    RunAppend(SPELLINGS, [mnt], lookup);
    RunAppend(SPELLINGS, [mnt, lookup], remove);
    assert [mnt] + [lookup] == [mnt, lookup] && [mnt, lookup] + [remove] == [mnt, lookup, remove];
  }

  /** A file system with a file behind a symbolic link. */
  const LINKED := FileSystem(p => if p == "/s/l/a" then "/d/a" else p, p => if p == "/s/l/a" then {"/s/l"} else {},
                             map["/s" := Node(1, Directory), "/s/l" := Node(4, Other), "/d/a" := Node(2, Regular)])

  lemma BehindALink()
    ensures PathIn("/s", "l/a") == "/s/l/a" && PathIn("/s", "l") == "/s/l"
    ensures LINKED.Has("/s") && LINKED.Get("/s") == Node(1, Directory)
    ensures LINKED.Has("/s/l/a") && LINKED.Get("/s/l/a") == Node(2, Regular) && LeadsTo(LINKED, "/s/l/a", "/s/l")
    ensures LINKED.Has("/s/l") && !IsDirectory(LINKED, "/s/l")
  {
  }

  /** And one with a symbolic link on the way. */
  lemma LinkOnTheWayDisagrees()
    ensures var ops := [MntOp("/s", CALM), LookupOp(1, "l/a", CALM), RemoveOp(1, "l", CALM)];
            IsRun(LINKED, ops) && !Sound(Run(LINKED, ops))
  {
    var mnt, lookup, remove := MntOp("/s", CALM), LookupOp(1, "l/a", CALM), RemoveOp(1, "l", CALM);
    BehindALink();
    MountedRun(LINKED, "/s");
    LookupThenRemoveDisagree(Mounted(LINKED, "/s"), 1, "l/a", "l");
    RunAppend(LINKED, [mnt], lookup);
    RunAppend(LINKED, [mnt, lookup], remove);
    assert [mnt] + [lookup] == [mnt, lookup] && [mnt, lookup] + [remove] == [mnt, lookup, remove];
  }

  // --------------------------------------------------------------- what is forgotten

  /** The inode number has one mapping and no more. */
  predicate Sole(cache: seq<Mapping>, inode: nat) {
    Resolve(cache, inode).Some? && Resolve(DropInode(cache, inode), inode).None?
  }

  /**
   The requests after which an inode number that had a mapping has none: a REMOVE of a path
   whose first mapping is its one mapping, even if the file has other names, and a LOOKUP that
   finds its one mapping and then fails, although the mapping is not the request's own.
   */
  predicate Forgets(s: State, op: Op, inode: nat) {
    Sole(s.cache, inode) &&
    match op
    case RemoveOp(dir, name, env) =>
      var at := RemovePath(s, dir, name, env);
      && at.At? && env.call.None?
      && var first := FirstTo(s.cache, at.path);
      first.Some? && first.value.handle.inode == inode
    case LookupOp(dir, name, env) =>
      var at := LookupPath(s, dir, name, env);
      at.At? && s.fs.Get(at.path).inode == inode && env.attributes
    case _ => false
  }

  predicate Known(s: State, inode: nat) { Resolve(s.cache, inode).Some? }

  /** Dropping by path loses an inode number exactly when the mapping dropped is its only one. */
  lemma {:induction false} DropPathForgets(cache: seq<Mapping>, path: string, inode: nat)
    requires Resolve(cache, inode).Some?
    ensures Resolve(DropPath(cache, path), inode).None?
            <==> Sole(cache, inode) && FirstTo(cache, path).Some? && FirstTo(cache, path).value.handle.inode == inode
  {
    var first, rest := cache[0], cache[1..];
    if first.path != path {
      assert DropPath(cache, path)[1..] == DropPath(rest, path);
    }
    if first.handle.inode != inode {
      assert DropInode(cache, inode)[1..] == DropInode(rest, inode);
      if first.path != path {
        DropPathForgets(rest, path, inode);
      }
    } else if first.path != path {
      FirstToExactly(rest, path);
      ResolveExactly(rest, inode);
    }
  }

  lemma RemoveForgets(s: State, dir: nat, name: string, env: Env, inode: nat)
    requires Known(s, inode)
    ensures !Known(Remove(s, dir, name, env).state, inode) <==> Forgets(s, RemoveOp(dir, name, env), inode)
  {
    var at := RemovePath(s, dir, name, env);
    if at.At? {
      DropPathForgets(s.cache, at.path, inode);
    }
  }

  lemma LookupForgets(s: State, dir: nat, name: string, env: Env, inode: nat)
    requires Known(s, inode)
    ensures !Known(Lookup(s, dir, name, env).state, inode) <==> Forgets(s, LookupOp(dir, name, env), inode)
  {
    var at := LookupPath(s, dir, name, env);
    if at.At? {
      var looked := s.fs.Get(at.path).inode;
      ResolveExactly(s.cache, looked);
      DropInodeExactly(s.cache, looked, inode);
      if Resolve(s.cache, looked).None? && MakeHandle(s, at.path, env).Some? {
        AddThenDrop(s.cache, MakeHandle(s, at.path, env).value);
      }
    }
  }

  /** In every state, a request loses the last mapping of an inode number if and only if it forgets it. */
  lemma ForgottenExactly(s: State, op: Op, inode: nat)
    requires Known(s, inode)
    ensures !Known(Apply(s, op).state, inode) <==> Forgets(s, op, inode)
  {
    match op
    case RemoveOp(dir, name, env) => RemoveForgets(s, dir, name, env, inode);
    case LookupOp(dir, name, env) => LookupForgets(s, dir, name, env, inode);
    case MntOp(path, env) =>
      if MakeHandle(s, path, env).Some? { AddThenDrop(s.cache, MakeHandle(s, path, env).value); }
    case CreateOp(dir, name, env) => CreateAddsOrRestores(s, dir, name, env);
    case _ =>
  }

  // ------------------------------------------------------------------ the handles

  /**
   A CREATE either makes the file, at a path where there was none, and its handle resolves to
   that path, or leaves the cache as it was; other handles resolve as before.
   */
  lemma CreateAddsOrRestores(s: State, dir: nat, name: string, env: Env)
    ensures var r := Create(s, dir, name, env);
            && (!r.reply.Granted? ==> r.state.cache == s.cache)
            && (r.reply.Granted? ==>
                  exists path :: !s.fs.Has(path) && r.state.fs == s.fs.With(path, Node(env.inode, Regular))
                              && r.reply.handle.inode == env.inode
                              && Resolve(r.state.cache, env.inode) == Some(Mapping(r.reply.handle, path)))
            && (forall i: nat :: i != env.inode ==> Resolve(r.state.cache, i) == Resolve(s.cache, i))
            && (forall i: nat :: Known(s, i) ==> Known(r.state, i))
  {
    var at := NewPath(s, dir, name, env);
    if at.At? {
      AddThenDrop(s.cache, Mapping(Handle(env.inode, env.now), at.path));
    }
  }

  /** A LOOKUP that does not succeed leaves the cache as it was, if and only if it does not drop an older mapping. */
  lemma FailedLookupRestoresExactly(s: State, dir: nat, name: string, env: Env)
    requires !Lookup(s, dir, name, env).reply.Granted?
    ensures Lookup(s, dir, name, env).state.cache == s.cache
            <==> !(LookupPath(s, dir, name, env).At? && env.attributes
                   && Known(s, s.fs.Get(LookupPath(s, dir, name, env).path).inode))
  {
    var at := LookupPath(s, dir, name, env);
    if at.At? {
      var inode := s.fs.Get(at.path).inode;
      ResolveExactly(s.cache, inode);
      DropInodeExactly(s.cache, inode, inode);
      if Resolve(s.cache, inode).None? && MakeHandle(s, at.path, env).Some? {
        AddThenDrop(s.cache, MakeHandle(s, at.path, env).value);
      } else if Known(s, inode) {
        assert |multiset(s.cache)| == |s.cache| && |multiset(DropInode(s.cache, inode))| == |DropInode(s.cache, inode)|;
      }
    }
  }

  /**
   The handle a request grants has the inode number of the file it asked for.  It resolves to a
   path of that file, unless it is an older mapping found by LOOKUP that names something else.
   */
  lemma GrantedNamesTheFile(s: State, op: Op)
    requires Apply(s, op).reply.Granted?
    ensures var r := Apply(s, op); var i := r.reply.handle.inode;
            && Known(r.state, i)
            && (Names(r.state.fs, Resolve(r.state.cache, i).value)
                <==> (op.LookupOp? && Known(s, i) ==> Names(s.fs, Resolve(s.cache, i).value)))
            && (op.MntOp? ==> s.fs.Has(op.path) && s.fs.Get(op.path).inode == i)
            && (op.CreateOp? ==> i == op.env.inode && (Possible(s, op) ==> !InUse(s.fs, i)))
            && (op.LookupOp? ==> OpenDirectory(s, op.dir, op.env).At?
                                 && var path := PathIn(OpenDirectory(s, op.dir, op.env).path, op.name);
                                    s.fs.Has(path) && s.fs.Get(path).inode == i)
  {
    match op
    case MntOp(path, env) => AddThenDrop(s.cache, MakeHandle(s, path, env).value);
    case LookupOp(dir, name, env) =>
      var inode := s.fs.Get(LookupPath(s, dir, name, env).path).inode;
      ResolveExactly(s.cache, inode);
      if Resolve(s.cache, inode).None? {
        AddThenDrop(s.cache, MakeHandle(s, LookupPath(s, dir, name, env).path, env).value);
      }
    case CreateOp(dir, name, env) =>
      AddThenDrop(s.cache, Mapping(Handle(env.inode, env.now), NewPath(s, dir, name, env).path));
    case _ =>
  }

  /**
   GETATTR answers with attributes if the resolved path names anything, and they are of a file
   with the handle's inode number if and only if the mapping names its file.
   */
  lemma AttributesOfTheHandleExactly(s: State, inode: nat, env: Env)
    ensures var r := GetAttr(s, inode, env);
            && r.state == s
            && (r.reply.Attributes? <==> Known(s, inode) && s.fs.Has(Resolve(s.cache, inode).value.path)
                                         && env.permission.Allowed? && !env.attributes)
            && (r.reply.Attributes? ==>
                  && r.reply.node == s.fs.nodes[s.fs.canon(Resolve(s.cache, inode).value.path)]
                  && (r.reply.node.inode == inode <==> Names(s.fs, Resolve(s.cache, inode).value)))
  {
    ResolveExactly(s.cache, inode);
  }

  /** So they are in every run without unsafe removals, for every handle that resolves. */
  lemma AttributesInRuns(fs: FileSystem, ops: seq<Op>, inode: nat, env: Env)
    requires SafeRemovals(fs, ops) && Known(Run(fs, ops), inode) && env.permission.Allowed? && !env.attributes
    ensures var reply := GetAttr(Run(fs, ops), inode, env).reply;
            reply.Attributes? && reply.node.inode == inode
  {
    var s := Run(fs, ops);
    CacheAgreesExactly(fs, ops);
    ResolveExactly(s.cache, inode);
    assert Names(s.fs, Resolve(s.cache, inode).value);
    AttributesOfTheHandleExactly(s, inode, env);
  }

  /** A file that is not mapped, looked up. */
  lemma LookupMaps(s: State, dir: nat, name: string, d: string)
    requires OpenDirectory(s, dir, CALM) == At(d) && s.fs.Has(PathIn(d, name))
    requires !Known(s, s.fs.Get(PathIn(d, name)).inode)
    ensures var m := Mapping(Handle(s.fs.Get(PathIn(d, name)).inode, 0), PathIn(d, name));
            Lookup(s, dir, name, CALM) == Outcome(s.(cache := [m] + s.cache), Granted(m.handle))
  {
  }

  /** A file that is not mapped to this path, removed. */
  lemma RemoveKeepsCache(s: State, dir: nat, name: string, d: string)
    requires OpenDirectory(s, dir, CALM) == At(d) && s.fs.Has(PathIn(d, name))
    requires !IsDirectory(s.fs, PathIn(d, name)) && !HasPath(s.cache, PathIn(d, name))
    ensures Remove(s, dir, name, CALM) == Outcome(s.(fs := s.fs.Without(PathIn(d, name))), Done)
  {
    DropPathExactly(s.cache, PathIn(d, name));
  }

  /** A file created. */
  lemma CreateMaps(s: State, dir: nat, name: string, d: string, inode: nat)
    requires OpenDirectory(s, dir, CALM) == At(d) && |name| <= NFS_MAXNAMLEN
    requires !s.fs.Has(PathIn(d, name)) && s.fs.Reaches(PathIn(d, name))
    ensures var m := Mapping(Handle(inode, 0), PathIn(d, name));
            Create(s, dir, name, CALM.(inode := inode)) ==
            Outcome(State(s.fs.With(PathIn(d, name), Node(inode, Regular)), [m] + s.cache), Granted(m.handle))
  {
    ReachesItself(s.fs, PathIn(d, name), Node(inode, Regular));
  }

  /** A new file does not get in its own way. */
  lemma ReachesItself(fs: FileSystem, path: string, node: Node)
    requires fs.Reaches(path) && fs.canon(path) !in fs.nodes
    ensures fs.With(path, node).Has(path) && fs.With(path, node).Get(path) == node
  {
  }

  /** The names `name` and `other` in the directory at `d` are two spellings of one unmapped file. */
  predicate SpelledTwice(s: State, d: string, name: string, other: string) {
    var p, q := PathIn(d, name), PathIn(d, other);
    && name != other && s.fs.Has(d) && s.fs.Has(p) && s.fs.Has(q) && s.fs.canon(p) == s.fs.canon(q) != s.fs.canon(d)
    && !IsDirectory(s.fs, q) && !Known(s, s.fs.Get(p).inode)
    && s.fs.canon(q) !in s.fs.via(p) && s.fs.canon(q) !in s.fs.via(q) && s.fs.canon(q) !in s.fs.via(d)
  }

  /**
   After an unsafe removal they may be those of a new file: a file is looked up under one
   spelling and removed under another, and a file is created there.
   */
  lemma OldHandleNewFile(s: State, dir: nat, d: string, name: string, other: string, inode: nat)
    requires Good(s) && OpenDirectory(s, dir, CALM) == At(d) && SpelledTwice(s, d, name, other)
    requires |other| <= NFS_MAXNAMLEN && inode != s.fs.Get(PathIn(d, name)).inode
    ensures var i, q := s.fs.Get(PathIn(d, name)).inode, PathIn(d, other);
            var t := Lookup(s, dir, name, CALM); var u := Remove(t.state, dir, other, CALM);
            var v := Create(u.state, dir, other, CALM.(inode := inode));
            && t.reply == Granted(Handle(i, 0)) && u.state.fs == s.fs.Without(q) && v.reply.Granted?
            && GetAttr(v.state, i, CALM).reply == Attributes(Node(inode, Regular))
  {
    var p, q := PathIn(d, name), PathIn(d, other);
    var m, m' := Mapping(Handle(s.fs.Get(p).inode, 0), p), Mapping(Handle(inode, 0), q);
    assert p != q by { assert p[|d| + 1..] == name && q[|d| + 1..] == other; }
    LookupMaps(s, dir, name, d);
    var t := s.(cache := [m] + s.cache);
    AddThenDrop(s.cache, m);
    UnknownIsUnmapped(s, q);
    RemoveKeepsCache(t, dir, other, d);
    var u := t.(fs := s.fs.Without(q));
    CreateMaps(u, dir, other, d, inode);
    var v := State(u.fs.With(q, Node(inode, Regular)), [m'] + t.cache);
    AddThenDrop(t.cache, m');
    assert v.fs.Has(p) && Resolve(v.cache, m.handle.inode) == Some(m);
  }

  lemma SpellingsMounted()
    ensures SpelledTwice(Mounted(SPELLINGS, "/s"), "/s", "./a", "a") && !InUse(SPELLINGS.Without("/s/a"), 3)
  {
    TwoSpellings();
    MountedRun(SPELLINGS, "/s");
  }

  /** Such a run: the handle given out for the old file answers for the new one. */
  lemma OldHandleRun()
    ensures var ops := [MntOp("/s", CALM), LookupOp(1, "./a", CALM), RemoveOp(1, "a", CALM),
                        CreateOp(1, "a", CALM.(inode := 3))];
            && IsRun(SPELLINGS, ops) && 2 in GrantedInodes(SPELLINGS, ops)
            && GetAttr(Run(SPELLINGS, ops), 2, CALM).reply == Attributes(Node(3, Regular))
  {
    var mnt, lookup, remove := MntOp("/s", CALM), LookupOp(1, "./a", CALM), RemoveOp(1, "a", CALM);
    var create := CreateOp(1, "a", CALM.(inode := 3));
    TwoSpellings();
    SpellingsMounted();
    MountedRun(SPELLINGS, "/s");
    OldHandleNewFile(Mounted(SPELLINGS, "/s"), 1, "/s", "./a", "a", 3);
    FourSteps(SPELLINGS, mnt, lookup, remove, create);
  }

  lemma FourSteps(fs: FileSystem, a: Op, b: Op, c: Op, d: Op)
    requires IsRun(fs, [a]) && !b.CreateOp? && !c.CreateOp?
    ensures var r := Apply(Run(fs, [a]), b); var t := Apply(r.state, c).state;
            && Run(fs, [a, b, c, d]) == Apply(t, d).state
            && (IsRun(fs, [a, b, c, d]) <==> Possible(t, d))
            && (r.reply.Granted? ==> r.reply.handle.inode in GrantedInodes(fs, [a, b, c, d]))
  {
    RunAppend(fs, [a], b);
    RunAppend(fs, [a, b], c);
    RunAppend(fs, [a, b, c], d);
    assert [a] + [b] == [a, b] && [a, b] + [c] == [a, b, c] && [a, b, c] + [d] == [a, b, c, d];
  }

  /**
   A LINK that succeeds makes a second name for the file that the handle's path leads to, which
   is the handle's if and only if the mapping names its file; no handle resolves differently.
   */
  lemma LinkAddsAName(s: State, target: nat, dir: nat, name: string, env: Env)
    requires Link(s, target, dir, name, env).reply.Done?
    ensures Known(s, target)
    ensures var t, m := Link(s, target, dir, name, env).state, Resolve(s.cache, target).value;
            && t.cache == s.cache && s.fs.Has(m.path)
            && (s.fs.Get(m.path).inode == target <==> Names(s.fs, m))
            && exists path :: !s.fs.Has(path) && t.fs == s.fs.With(path, s.fs.Get(m.path)) && t.fs.Has(path)
  {
    ResolveExactly(s.cache, target);
    var path := NewPath(s, dir, name, env).path;
    var fs' := s.fs.With(path, s.fs.Get(Resolve(s.cache, target).value.path));
    assert s.fs.canon(path) !in s.fs.nodes && fs'.Reaches(path);
  }

  predicate ForgetsNone(s: State, op: Op, inodes: set<nat>) { forall i :: i in inodes ==> !Forgets(s, op, i) }

  /** No request of the run forgets the inode number of a handle given out before it. */
  predicate NothingForgotten(fs: FileSystem, ops: seq<Op>) {
    ops == [] ||
    (&& NothingForgotten(fs, ops[..|ops| - 1])
     && ForgetsNone(Run(fs, ops[..|ops| - 1]), ops[|ops| - 1], GrantedInodes(fs, ops[..|ops| - 1])))
  }

  /** At the end of such a run, every handle ever given out resolves; to a path of its file, if removals are safe. */
  lemma {:induction false} HandlesResolve(fs: FileSystem, ops: seq<Op>, inode: nat)
    requires NothingForgotten(fs, ops) && inode in GrantedInodes(fs, ops)
    ensures var s := Run(fs, ops);
            Known(s, inode) && (SafeRemovals(fs, ops) ==> Names(s.fs, Resolve(s.cache, inode).value))
  {
    var before, op := ops[..|ops| - 1], ops[|ops| - 1];
    var s := Run(fs, before);
    if inode in GrantedInodes(fs, before) {
      HandlesResolve(fs, before, inode);
      ForgottenExactly(s, op, inode);
    } else {
      GrantedNamesTheFile(s, op);
    }
    CacheAgreesExactly(fs, ops);
    ResolveExactly(Run(fs, ops).cache, inode);
  }

  /** The requests that never forget and never take a name away. */
  predicate Harmless(op: Op) { op.MntOp? || op.GetAttrOp? || op.CreateOp? || op.LinkOp? }

  predicate AllHarmless(ops: seq<Op>) { forall i :: 0 <= i < |ops| ==> Harmless(ops[i]) }

  lemma {:induction false} HarmlessRunsForgetNothing(fs: FileSystem, ops: seq<Op>)
    requires AllHarmless(ops)
    ensures NothingForgotten(fs, ops) && SafeRemovals(fs, ops)
  {
    if ops != [] {
      HarmlessRunsForgetNothing(fs, ops[..|ops| - 1]);
      assert Harmless(ops[|ops| - 1]);
    }
  }

  /** What a path names, it goes on naming. */
  ghost predicate Extends(fs: FileSystem, fs': FileSystem) {
    && fs'.canon == fs.canon && fs'.via == fs.via
    && forall p :: p in fs.nodes ==> p in fs'.nodes && fs'.nodes[p] == fs.nodes[p]
  }

  lemma HarmlessExtends(s: State, op: Op)
    requires Harmless(op)
    ensures Extends(s.fs, Apply(s, op).state.fs)
  {
  }

  lemma {:induction false} HarmlessRunsExtend(fs: FileSystem, ops: seq<Op>, k: nat)
    requires AllHarmless(ops) && k <= |ops|
    ensures Extends(Run(fs, ops[..k]).fs, Run(fs, ops).fs)
    decreases |ops|
  {
    if k == |ops| {
      assert ops[..k] == ops;
    } else {
      var before := ops[..|ops| - 1];
      assert Harmless(ops[|ops| - 1]) && before[..k] == ops[..k];
      HarmlessRunsExtend(fs, before, k);
      HarmlessExtends(Run(fs, before), ops[|ops| - 1]);
    }
  }

  lemma {:induction false} GrantedStays(fs: FileSystem, ops: seq<Op>, k: nat)
    requires k < |ops| && Apply(Run(fs, ops[..k]), ops[k]).reply.Granted?
    ensures Apply(Run(fs, ops[..k]), ops[k]).reply.handle.inode in GrantedInodes(fs, ops)
    decreases |ops|
  {
    if k < |ops| - 1 {
      assert ops[..|ops| - 1][..k] == ops[..k];
      GrantedStays(fs, ops[..|ops| - 1], k);
    }
  }

  /** The file a granted handle resolved to when it was granted, by the `k`th request. */
  function GrantedPath(fs: FileSystem, ops: seq<Op>, k: nat): string
    requires k < |ops| && Apply(Run(fs, ops[..k]), ops[k]).reply.Granted?
  {
    var r := Apply(Run(fs, ops[..k]), ops[k]);
    var m := Resolve(r.state.cache, r.reply.handle.inode);
    if m.Some? then m.value.path else ""
  }

  lemma GrantedAtStep(fs: FileSystem, ops: seq<Op>, k: nat)
    requires AllHarmless(ops)
    requires k < |ops| && Apply(Run(fs, ops[..k]), ops[k]).reply.Granted?
    ensures var r, p := Apply(Run(fs, ops[..k]), ops[k]), GrantedPath(fs, ops, k);
            r.state.fs.Has(p) && r.state.fs.Get(p).inode == r.reply.handle.inode
  {
    var s, r := Run(fs, ops[..k]), Apply(Run(fs, ops[..k]), ops[k]);
    HarmlessRunsForgetNothing(fs, ops[..k]);
    CacheAgreesExactly(fs, ops[..k]);
    GrantedNamesTheFile(s, ops[k]);
    ResolveExactly(s.cache, r.reply.handle.inode);
    ResolveExactly(r.state.cache, r.reply.handle.inode);
  }

  lemma StepIsExtended(fs: FileSystem, ops: seq<Op>, k: nat)
    requires AllHarmless(ops) && k < |ops|
    ensures Extends(Apply(Run(fs, ops[..k]), ops[k]).state.fs, Run(fs, ops).fs)
  {
    var after := ops[..k + 1];
    assert after[..k] == ops[..k] && after[k] == ops[k] && after[..|after| - 1] == ops[..k];
    assert Run(fs, after) == Apply(Run(fs, ops[..k]), ops[k]).state;
    HarmlessRunsExtend(fs, ops, k + 1);
  }

  lemma ResolvedAtEnd(fs: FileSystem, ops: seq<Op>, k: nat)
    requires AllHarmless(ops)
    requires k < |ops| && Apply(Run(fs, ops[..k]), ops[k]).reply.Granted?
    ensures var s, i := Run(fs, ops), Apply(Run(fs, ops[..k]), ops[k]).reply.handle.inode;
            Known(s, i) && Names(s.fs, Resolve(s.cache, i).value)
  {
    HarmlessRunsForgetNothing(fs, ops);
    GrantedStays(fs, ops, k);
    HandlesResolve(fs, ops, Apply(Run(fs, ops[..k]), ops[k]).reply.handle.inode);
  }

  /** An inode number is of one file. */
  predicate OneFileEach(fs: FileSystem) {
    forall p, q :: p in fs.nodes && q in fs.nodes && fs.nodes[p].inode == fs.nodes[q].inode ==>
      fs.nodes[p] == fs.nodes[q]
  }

  lemma {:induction false} RunsKeepOneFileEach(fs: FileSystem, ops: seq<Op>)
    requires IsRun(fs, ops) && OneFileEach(fs)
    ensures OneFileEach(Run(fs, ops).fs)
  {
    if ops != [] {
      RunsKeepOneFileEach(fs, ops[..|ops| - 1]);
      StepKeepsOneFileEach(Run(fs, ops[..|ops| - 1]), ops[|ops| - 1]);
    }
  }

  lemma StepKeepsOneFileEach(s: State, op: Op)
    requires Possible(s, op) && OneFileEach(s.fs)
    ensures OneFileEach(Apply(s, op).state.fs)
  {
    var fs' := Apply(s, op).state.fs;
    forall p, q | p in fs'.nodes && q in fs'.nodes && fs'.nodes[p].inode == fs'.nodes[q].inode
      ensures fs'.nodes[p] == fs'.nodes[q]
    {
    }
  }

  /**
   In every run of MNT, GETATTR, CREATE and LINK, every handle ever given out resolves at the
   end to a path with its inode number, and the path it was given out for names what it did; if
   inode numbers are each of one file, both are that file.
   */
  lemma HandlesKeepTheirFiles(fs: FileSystem, ops: seq<Op>, k: nat)
    requires AllHarmless(ops)
    requires k < |ops| && Apply(Run(fs, ops[..k]), ops[k]).reply.Granted?
    ensures var s, r := Run(fs, ops), Apply(Run(fs, ops[..k]), ops[k]);
            var i, p := r.reply.handle.inode, GrantedPath(fs, ops, k);
            && Known(s, i) && Names(s.fs, Resolve(s.cache, i).value)
            && r.state.fs.Has(p) && s.fs.Has(p) && s.fs.Get(p) == r.state.fs.Get(p) && s.fs.Get(p).inode == i
            && (IsRun(fs, ops) && OneFileEach(fs) ==> s.fs.Get(Resolve(s.cache, i).value.path) == s.fs.Get(p))
  {
    GrantedAtStep(fs, ops, k);
    StepIsExtended(fs, ops, k);
    ResolvedAtEnd(fs, ops, k);
    ResolveExactly(Run(fs, ops).cache, Apply(Run(fs, ops[..k]), ops[k]).reply.handle.inode);
    if IsRun(fs, ops) && OneFileEach(fs) { RunsKeepOneFileEach(fs, ops); }
  }
}
