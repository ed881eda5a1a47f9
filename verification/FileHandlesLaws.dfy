/**
 What each procedure does, as a list of facts about paths and files: when it succeeds, on which
 path it works, what it changes, and when it gives which refusal.
 */
module FileHandlesLaws {
  import opened Common
  import opened InodeCache
  import opened FileHandles
  import opened FileHandlesProof

  /** The handle's own mapping leads to a directory, and the server can look at it. */
  predicate Ready(s: State, dir: nat, env: Env) {
    var m := Resolve(s.cache, dir);
    m.Some? && !env.dirStat && IsDirectory(s.fs, m.value.path)
  }

  /** The path of a name in the directory that a handle resolves to. */
  function Under(s: State, dir: nat, name: string): string
    requires Resolve(s.cache, dir).Some?
  {
    Resolve(s.cache, dir).value.path + "/" + name
  }

  /** A handle stands for the path its own inode number resolves to, and for no other. */
  lemma OpenDirectoryExactly(s: State, dir: nat, env: Env)
    ensures var r, m := OpenDirectory(s, dir, env), Resolve(s.cache, dir);
            && (r.At? <==> Ready(s, dir, env))
            && (r.At? ==> r.path == m.value.path)
            && (r == Failed(Refused(NOENT)) <==> m.None?)
            && (r == Failed(Refused(NOTDIR)) <==>
                  m.Some? && !env.dirStat && s.fs.Has(m.value.path) && !Ready(s, dir, env))
            && (r.Failed? ==> r.reply in {Refused(NOENT), Refused(NOTDIR), SystemError})
  {
  }

  /** The refusals that come from the directory alone. */
  predicate DirectoryRefusals(s: State, dir: nat, env: Env, reply: Reply) {
    && (Resolve(s.cache, dir).None? ==> reply == Refused(NOENT))
    && (Resolve(s.cache, dir).Some? && !Ready(s, dir, env) ==>
          reply == if !env.dirStat && s.fs.Has(Resolve(s.cache, dir).value.path) then Refused(NOTDIR) else SystemError)
  }

  // ------------------------------------------------------------------------ CREATE

  /** Nothing is in the way of making this name. */
  predicate MayMake(s: State, dir: nat, name: string, env: Env) {
    && Ready(s, dir, env) && |name| <= 255 && !env.stat
    && !s.fs.Has(Under(s, dir, name)) && env.permission.Allowed?
  }

  predicate Makes(s: State, dir: nat, name: string, env: Env) {
    MayMake(s, dir, name, env) && env.call.None? && s.fs.Reaches(Under(s, dir, name))
  }

  /** CREATE makes the name in the handle's own directory, and its handle is for that path. */
  lemma CreateExactly(s: State, dir: nat, name: string, env: Env)
    ensures var r := Create(s, dir, name, env);
            var granted := Makes(s, dir, name, env) && !env.setup && !env.handle && !env.attributes;
            && (r.reply.Granted? <==> granted)
            && (Makes(s, dir, name, env) ==>
                  && r.state.fs == s.fs.With(Under(s, dir, name), Node(env.inode, Regular))
                  && (!granted ==> r.reply == SystemError && r.state.cache == s.cache))
            && (granted ==>
                  && r.reply.handle == Handle(env.inode, env.now)
                  && r.state.cache == [Mapping(r.reply.handle, Under(s, dir, name))] + s.cache)
            && (!Makes(s, dir, name, env) ==> r.state == s)
  {
    OpenDirectoryExactly(s, dir, env);
    if Makes(s, dir, name, env) {
      var p := Under(s, dir, name);
      ReachesItself(s.fs, p, Node(env.inode, Regular));
      AddThenDrop(s.cache, Mapping(Handle(env.inode, env.now), p));
    }
  }

  lemma CreateRefusals(s: State, dir: nat, name: string, env: Env)
    ensures var reply := Create(s, dir, name, env).reply;
            && DirectoryRefusals(s, dir, env, reply)
            && (Ready(s, dir, env) ==> NewNameRefusals(s, dir, name, env, reply))
            && (MayMake(s, dir, name, env) && env.call.Some? ==>
                  reply == if env.call.value in {EIO, ENAMETOOLONG, ENOSPC, ENXIO}
                           then Refused(StatusOf(env.call.value))
                           else SystemError)
  {
    OpenDirectoryExactly(s, dir, env);
  }

  /** In the order of the checks: the name's length, its existence, the permission. */
  predicate NewNameRefusals(s: State, dir: nat, name: string, env: Env, reply: Reply)
    requires Ready(s, dir, env)
  {
    var taken := s.fs.Has(Under(s, dir, name));
    && (|name| > 255 ==> reply == Refused(NAMETOOLONG))
    && (|name| <= 255 && env.stat ==> reply == SystemError)
    && (|name| <= 255 && !env.stat && taken ==> reply == Refused(EXIST))
    && (|name| <= 255 && !env.stat && !taken && env.permission.Denied? ==> reply == Refused(ACCES))
    && (|name| <= 255 && !env.stat && !taken && env.permission.CheckFailed? ==> reply == SystemError)
  }

  // -------------------------------------------------------------------------- LINK

  /** The handle's own mapping leads to a regular file, and the server can look at it. */
  predicate MayLink(s: State, target: nat, env: Env) {
    var m := Resolve(s.cache, target);
    && m.Some? && !env.targetStat && s.fs.Has(m.value.path)
    && s.fs.nodes[s.fs.canon(m.value.path)].kind.Regular?
  }

  /** LINK makes the name in the handle's own directory, for the file at the target handle's own path. */
  lemma LinkExactly(s: State, target: nat, dir: nat, name: string, env: Env)
    ensures var r := Link(s, target, dir, name, env);
            var done := MayLink(s, target, env) && Makes(s, dir, name, env);
            && (r.reply.Done? <==> done)
            && (done ==> r.state == s.(fs := s.fs.With(Under(s, dir, name),
                                                       s.fs.nodes[s.fs.canon(Resolve(s.cache, target).value.path)])))
            && (!done ==> r.state == s)
  {
    OpenDirectoryExactly(s, dir, env);
  }

  lemma LinkRefusals(s: State, target: nat, dir: nat, name: string, env: Env)
    ensures var reply, m := Link(s, target, dir, name, env).reply, Resolve(s.cache, target);
            && (m.None? ==> reply == Refused(NOENT))
            && (m.Some? && !MayLink(s, target, env) ==>
                  reply == if env.targetStat || !s.fs.Has(m.value.path) then SystemError else Refused(ISDIR))
            && (MayLink(s, target, env) ==> DirectoryRefusals(s, dir, env, reply))
            && (MayLink(s, target, env) && Ready(s, dir, env) ==> NewNameRefusals(s, dir, name, env, reply))
            && (MayLink(s, target, env) && MayMake(s, dir, name, env) && env.call.Some? ==>
                  reply == if env.call.value in {EDQUOT, EIO, ENAMETOOLONG, ENOENT, ENOSPC, EROFS}
                           then Refused(StatusOf(env.call.value)) else SystemError)
  {
    OpenDirectoryExactly(s, dir, env);
  }

  // ------------------------------------------------------------------------ LOOKUP

  /** The name is in the handle's own directory, and may be looked at. */
  predicate MayLookUp(s: State, dir: nat, name: string, env: Env) {
    Ready(s, dir, env) && !env.stat && s.fs.Has(Under(s, dir, name)) && env.permission.Allowed?
  }

  /** LOOKUP answers with the older handle of the file there, or maps it and answers with a new one. */
  lemma LookupExactly(s: State, dir: nat, name: string, env: Env)
    ensures var r := Lookup(s, dir, name, env);
            && r.state.fs == s.fs
            && (r.reply.Granted? <==>
                  && MayLookUp(s, dir, name, env) && !env.attributes
                  && (Known(s, InodeUnder(s, dir, name)) || !env.handle))
            && (r.reply.Granted? ==>
                  var i := InodeUnder(s, dir, name); var p := Under(s, dir, name);
                  if Known(s, i) then r.reply.handle == Resolve(s.cache, i).value.handle && r.state == s
                  else r.reply.handle == Handle(i, env.now) && r.state.cache == [Mapping(r.reply.handle, p)] + s.cache)
            && (!r.reply.Granted? ==>
                  r.state.cache == if MayLookUp(s, dir, name, env) && env.attributes
                                   then DropInode(s.cache, InodeUnder(s, dir, name)) else s.cache)
  {
    OpenDirectoryExactly(s, dir, env);
    if MayLookUp(s, dir, name, env) {
      var i := InodeUnder(s, dir, name);
      ResolveExactly(s.cache, i);
      DropInodeExactly(s.cache, i, i);
      AddThenDrop(s.cache, Mapping(Handle(i, env.now), Under(s, dir, name)));
    }
  }

  /** The inode number of the file at a name. */
  function InodeUnder(s: State, dir: nat, name: string): nat {
    if Resolve(s.cache, dir).Some? && s.fs.Has(Under(s, dir, name))
    then s.fs.nodes[s.fs.canon(Under(s, dir, name))].inode else 0
  }

  lemma LookupRefusals(s: State, dir: nat, name: string, env: Env)
    ensures var reply := Lookup(s, dir, name, env).reply;
            && DirectoryRefusals(s, dir, env, reply)
            && (Ready(s, dir, env) ==>
                  var there := s.fs.Has(Under(s, dir, name));
                  && (env.stat ==> reply == SystemError)
                  && (!env.stat && !there ==> reply == Refused(NOENT))
                  && (!env.stat && there && env.permission.Denied? ==> reply == Refused(ACCES)))
            && (MayLookUp(s, dir, name, env) && !reply.Granted? ==> reply == SystemError)
  {
    OpenDirectoryExactly(s, dir, env);
  }

  // ------------------------------------------------------------------------ REMOVE

  /** The name is in the handle's own directory, is no directory, and may be removed. */
  predicate MayRemove(s: State, dir: nat, name: string, env: Env) {
    && Ready(s, dir, env) && !env.stat && !env.attributes && s.fs.Has(Under(s, dir, name))
    && !IsDirectory(s.fs, Under(s, dir, name)) && env.permission.Allowed?
  }

  /** REMOVE takes the name out of the handle's own directory, and the first mapping to that very path. */
  lemma RemoveExactly(s: State, dir: nat, name: string, env: Env)
    ensures var r := Remove(s, dir, name, env);
            var done := MayRemove(s, dir, name, env) && env.call.None?;
            && (r.reply.Done? <==> done)
            && (done ==> r.state == State(s.fs.Without(Under(s, dir, name)), DropPath(s.cache, Under(s, dir, name))))
            && (!done ==> r.state == s)
  {
    OpenDirectoryExactly(s, dir, env);
  }

  lemma RemoveRefusals(s: State, dir: nat, name: string, env: Env)
    ensures var reply := Remove(s, dir, name, env).reply;
            && DirectoryRefusals(s, dir, env, reply)
            && (Ready(s, dir, env) ==>
                  var there := s.fs.Has(Under(s, dir, name));
                  && (env.stat ==> reply == SystemError)
                  && (!env.stat && !there ==> reply == Refused(NOENT))
                  && (!env.stat && there && env.attributes ==> reply == SystemError)
                  && (!env.stat && there && !env.attributes ==>
                        var isDirectory := IsDirectory(s.fs, Under(s, dir, name));
                        && (isDirectory ==> reply == Refused(ISDIR))
                        && (!isDirectory && env.permission.Denied? ==> reply == Refused(ACCES))))
            && (MayRemove(s, dir, name, env) && env.call.Some? ==>
                  reply == if env.call.value in {EIO, ENAMETOOLONG, EROFS} then Refused(StatusOf(env.call.value))
                           else SystemError)
  {
    OpenDirectoryExactly(s, dir, env);
  }

  // ----------------------------------------------------------------- MNT and GETATTR

  /** MNT grants a new handle for the path asked for, exactly if it is an exported directory that may be mounted. */
  lemma MntExactly(s: State, path: string, env: Env)
    ensures var r := Mnt(s, path, env);
            && (r.reply.Granted? <==>
                  && IsDirectory(s.fs, path) && env.exported && env.permission.Allowed?
                  && !env.stat && !env.attributes && !env.handle)
            && (r.reply.Granted? ==>
                  && r.reply.handle == Handle(s.fs.nodes[s.fs.canon(path)].inode, env.now)
                  && r.state == s.(cache := [Mapping(r.reply.handle, path)] + s.cache))
            && (!r.reply.Granted? ==> r.state == s)
            && (!env.stat && !s.fs.Has(path) ==> r.reply == Refused(NOENT))
            && (!env.stat && !env.attributes && s.fs.Has(path) ==>
                  && (!IsDirectory(s.fs, path) <==> r.reply == Refused(NOTDIR))
                  && (IsDirectory(s.fs, path) && !env.exported <==> r.reply == Refused(NOTEXP))
                  && (IsDirectory(s.fs, path) && env.exported && env.permission.Denied? <==> r.reply == Refused(ACCES)))
            && (env.stat ==> r.reply == SystemError)
  {
  }

  /** GETATTR answers with the whole of what the file system has at the handle's own path. */
  lemma GetAttrExactly(s: State, inode: nat, env: Env)
    ensures var r, m := GetAttr(s, inode, env), Resolve(s.cache, inode);
            && r.state == s
            && (m.None? <==> r.reply == Refused(NOENT))
            && (m.Some? && env.permission.Denied? <==> r.reply == Refused(ACCES))
            && (r.reply.Attributes? <==>
                  m.Some? && env.permission.Allowed? && !env.attributes && s.fs.Has(m.value.path))
            && (r.reply.Attributes? ==> r.reply.node == s.fs.nodes[s.fs.canon(m.value.path)])
  {
  }

  /** What was mounted is a directory to those who ask. */
  lemma MountedIsADirectory(s: State, path: string, env: Env, env': Env)
    requires Mnt(s, path, env).reply.Granted? && env'.permission.Allowed? && !env'.attributes
    ensures var r := Mnt(s, path, env);
            var reply := GetAttr(r.state, r.reply.handle.inode, env').reply;
            reply == Attributes(Node(r.reply.handle.inode, Directory)) == Attributes(s.fs.nodes[s.fs.canon(path)])
  {
    MntExactly(s, path, env);
    AddThenDrop(s.cache, Mapping(Mnt(s, path, env).reply.handle, path));
  }

  /** What was created is a regular file to those who ask. */
  lemma CreatedIsAFile(s: State, dir: nat, name: string, env: Env, env': Env)
    requires Create(s, dir, name, env).reply.Granted? && env'.permission.Allowed? && !env'.attributes
    ensures GetAttr(Create(s, dir, name, env).state, env.inode, env').reply == Attributes(Node(env.inode, Regular))
  {
    CreateExactly(s, dir, name, env);
    var p := Under(s, dir, name);
    ReachesItself(s.fs, p, Node(env.inode, Regular));
    AddThenDrop(s.cache, Mapping(Handle(env.inode, env.now), p));
  }

  /** What was created can be looked up under its name, and gives the same handle. */
  lemma CreatedIsFound(s: State, dir: nat, name: string, env: Env, env': Env)
    requires Create(s, dir, name, env).reply.Granted? && env.inode != dir
    requires env'.permission.Allowed? && !env'.dirStat && !env'.stat && !env'.attributes
    ensures var t := Create(s, dir, name, env);
            Lookup(t.state, dir, name, env').reply == Granted(t.reply.handle)
  {
    CreateExactly(s, dir, name, env);
    var t, p := Create(s, dir, name, env).state, Under(s, dir, name);
    ReachesItself(s.fs, p, Node(env.inode, Regular));
    AddThenDrop(s.cache, Mapping(Handle(env.inode, env.now), p));
    assert IsDirectory(t.fs, Resolve(s.cache, dir).value.path);
    LookupExactly(t, dir, name, env');
  }
}
