/**
 File handles over runs of the procedures MNT, GETATTR, LOOKUP, CREATE, REMOVE and LINK
 (sections 2.2.2, 2.2.5, 2.2.10, 2.2.11 and 2.2.13 and appendix A of RFC 1094): the
 inode cache must agree with the file system, and a handle must keep naming its file.
 */
module FileHandles {
  import opened Common
  import opened InodeCache

  const NFS_MAXNAMLEN := 255

  datatype Kind = Regular | Directory | Other

  datatype Node = Node(inode: nat, kind: Kind)

  /**
   What each path names.  A file has many spellings, such as with `.`, a doubled slash, or
   through a symbolic link; `canon` gives the one it is kept under, and `via` the links on the
   way, which must be there for the path to lead anywhere.
   */
  datatype FileSystem = FileSystem(canon: string -> string, via: string -> set<string>, nodes: map<string, Node>) {
    predicate Reaches(path: string) { forall l :: l in via(path) ==> l in nodes && nodes[l].kind.Other? }

    predicate Has(path: string) { Reaches(path) && canon(path) in nodes }

    function Get(path: string): Node
      requires Has(path)
    {
      nodes[canon(path)]
    }

    function With(path: string, node: Node): FileSystem { this.(nodes := nodes[canon(path) := node]) }

    /** How open and link fail, if they do: a new file needs a way to its place. */
    function Error(call: Option<Errno>, path: string): Option<Errno> {
      if call.None? && !Reaches(path) then Some(ENOENT) else call
    }

    function Without(path: string): FileSystem { this.(nodes := nodes - {canon(path)}) }
  }

  datatype State = State(fs: FileSystem, cache: seq<Mapping>)

  datatype Errno = EIO | ENAMETOOLONG | ENOSPC | ENXIO | EROFS | EDQUOT | ENOENT | EOTHER

  /** The status codes of the NFS and mount protocols, which share most names. */
  datatype Status = NOENT | IO | NXIO | ACCES | EXIST | NOTDIR | ISDIR
                  | NOSPC | ROFS | NAMETOOLONG | DQUOT | NOTEXP

  datatype Reply = Granted(handle: Handle) | Attributes(node: Node) | Done | Refused(status: Status) | SystemError

  datatype Permission = Allowed | Denied | CheckFailed

  /**
   What the operating system decides during one request: which calls fail (`targetStat`,
   `dirStat` and `stat` the first looks at the target, the directory and the file, `call`
   the open, link or unlink, `setup` the setting of the first attributes, `handle` the
   making of the handle, `attributes` the last look at the file), the inode number of a
   new file, and the time.
   */
  datatype Env = Env(targetStat: bool, dirStat: bool, stat: bool, exported: bool, permission: Permission,
                     call: Option<Errno>, setup: bool, handle: bool, attributes: bool, inode: nat, now: int)

  datatype Outcome = Outcome(state: State, reply: Reply)

  /** A check of a request either finds a path or fails with a reply. */
  datatype Checked = At(path: string) | Failed(reply: Reply)

  function PathIn(dir: string, name: string): string { dir + "/" + name }

  // -------------------------------------------------------------- the procedures

  function Permitted(path: string, p: Permission): Checked {
    match p
    case Allowed => At(path)
    case Denied => Failed(Refused(ACCES))
    case CheckFailed => Failed(SystemError)
  }

  /** The path of the directory a handle stands for. */
  function OpenDirectory(s: State, dir: nat, env: Env): (r: Checked)
    ensures r.At? ==> s.fs.Has(r.path) && s.fs.Get(r.path).kind.Directory?
  {
    match Resolve(s.cache, dir)
    case None => Failed(Refused(NOENT))
    case Some(m) =>
      if env.dirStat || !s.fs.Has(m.path) then Failed(SystemError)
      else if !s.fs.Get(m.path).kind.Directory? then Failed(Refused(NOTDIR))
      else At(m.path)
  }

  /** The path of a file to be made by CREATE or LINK. */
  function NewPath(s: State, dir: nat, name: string, env: Env): (r: Checked)
    ensures r.At? ==> !s.fs.Has(r.path)
  {
    match OpenDirectory(s, dir, env)
    case Failed(reply) => Failed(reply)
    case At(d) =>
      var path := PathIn(d, name);
      if |name| > NFS_MAXNAMLEN then Failed(Refused(NAMETOOLONG))
      else if env.stat then Failed(SystemError)
      else if s.fs.Has(path) then Failed(Refused(EXIST))
      else Permitted(path, env.permission)
  }

  /** The path of a file that is there. */
  function OldPath(s: State, dir: nat, name: string, env: Env): (r: Checked)
    ensures r.At? ==> s.fs.Has(r.path)
  {
    match OpenDirectory(s, dir, env)
    case Failed(reply) => Failed(reply)
    case At(d) =>
      var path := PathIn(d, name);
      if env.stat then Failed(SystemError)
      else if !s.fs.Has(path) then Failed(Refused(NOENT))
      else At(path)
  }

  /** Adds a mapping for a new handle to the file at the path. */
  function MakeHandle(s: State, path: string, env: Env): Option<Mapping> {
    if env.handle || !s.fs.Has(path) then None else Some(Mapping(Handle(s.fs.Get(path).inode, env.now), path))
  }

  function Mnt(s: State, path: string, env: Env): Outcome {
    if env.stat then Outcome(s, SystemError)
    else if !s.fs.Has(path) then Outcome(s, Refused(NOENT))
    else if env.attributes then Outcome(s, SystemError)
    else if !s.fs.Get(path).kind.Directory? then Outcome(s, Refused(NOTDIR))
    else if !env.exported then Outcome(s, Refused(NOTEXP))
    else match Permitted(path, env.permission)
      case Failed(reply) => Outcome(s, reply)
      case At(_) =>
        match MakeHandle(s, path, env)
        case None => Outcome(s, SystemError)
        case Some(m) => Outcome(s.(cache := [m] + s.cache), Granted(m.handle))
  }

  function GetAttr(s: State, inode: nat, env: Env): Outcome {
    match Resolve(s.cache, inode)
    case None => Outcome(s, Refused(NOENT))
    case Some(m) =>
      match Permitted(m.path, env.permission)
      case Failed(reply) => Outcome(s, reply)
      case At(_) => if env.attributes || !s.fs.Has(m.path) then Outcome(s, SystemError)
                    else Outcome(s, Attributes(s.fs.Get(m.path)))
  }

  /** The path LOOKUP looks for, once the checks before the cache are passed. */
  function LookupPath(s: State, dir: nat, name: string, env: Env): (r: Checked)
    ensures r.At? ==> s.fs.Has(r.path)
  {
    match OldPath(s, dir, name, env)
    case Failed(reply) => Failed(reply)
    case At(path) => Permitted(path, env.permission)
  }

  /** A file without a mapping gets one; a mapping is dropped again when the last look at the file fails. */
  function Lookup(s: State, dir: nat, name: string, env: Env): Outcome {
    match LookupPath(s, dir, name, env)
    case Failed(reply) => Outcome(s, reply)
    case At(path) =>
      var inode := s.fs.Get(path).inode;
      var known := Resolve(s.cache, inode);
      var made := MakeHandle(s, path, env);
      if known.None? && made.None? then Outcome(s, SystemError)
      else
        var cache := if known.Some? then s.cache else [made.value] + s.cache;
        var handle := if known.Some? then known.value.handle else made.value.handle;
        if env.attributes then Outcome(s.(cache := DropInode(cache, handle.inode)), SystemError)
        else Outcome(s.(cache := cache), Granted(handle))
  }

  /** The status of the same name; EOTHER stands for the errors that have none. */
  function StatusOf(e: Errno): Status {
    match e
    case EIO => IO
    case ENAMETOOLONG => NAMETOOLONG
    case ENOSPC => NOSPC
    case ENXIO => NXIO
    case EROFS => ROFS
    case EDQUOT => DQUOT
    case ENOENT | EOTHER => NOENT
  }

  function OpenFailure(e: Errno): Reply {
    if e in {EIO, ENAMETOOLONG, ENOSPC, ENXIO} then Refused(StatusOf(e)) else SystemError
  }

  /** A file that was made stays when a later step fails. */
  function Create(s: State, dir: nat, name: string, env: Env): Outcome {
    match NewPath(s, dir, name, env)
    case Failed(reply) => Outcome(s, reply)
    case At(path) =>
      var error := s.fs.Error(env.call, path);
      if error.Some? then Outcome(s, OpenFailure(error.value))
      else
        var t := s.(fs := s.fs.With(path, Node(env.inode, Regular)));
        if env.setup then Outcome(t, SystemError)
        else match MakeHandle(t, path, env)
          case None => Outcome(t, SystemError)
          case Some(m) =>
            var cache := [m] + t.cache;
            if env.attributes then Outcome(t.(cache := DropInode(cache, m.handle.inode)), SystemError)
            else Outcome(t.(cache := cache), Granted(m.handle))
  }

  function LinkFailure(e: Errno): Reply {
    if e in {EDQUOT, EIO, ENAMETOOLONG, ENOENT, ENOSPC, EROFS} then Refused(StatusOf(e)) else SystemError
  }

  /** The path of the file to be linked. */
  function LinkTarget(s: State, target: nat, env: Env): (r: Checked)
    ensures r.At? ==> s.fs.Has(r.path)
  {
    match Resolve(s.cache, target)
    case None => Failed(Refused(NOENT))
    case Some(m) =>
      if env.targetStat || !s.fs.Has(m.path) then Failed(SystemError)
      else if !s.fs.Get(m.path).kind.Regular? then Failed(Refused(ISDIR))
      else At(m.path)
  }

  /** The new name gets no mapping of its own. */
  function Link(s: State, target: nat, dir: nat, name: string, env: Env): Outcome {
    match LinkTarget(s, target, env)
    case Failed(reply) => Outcome(s, reply)
    case At(from) =>
      match NewPath(s, dir, name, env)
      case Failed(reply) => Outcome(s, reply)
      case At(path) =>
        var error := s.fs.Error(env.call, path);
        if error.Some? then Outcome(s, LinkFailure(error.value))
        else Outcome(s.(fs := s.fs.With(path, s.fs.Get(from))), Done)
  }

  function UnlinkFailure(e: Errno): Reply {
    if e in {EIO, ENAMETOOLONG, EROFS} then Refused(StatusOf(e)) else SystemError
  }

  /** The path REMOVE takes away, once its checks are passed. */
  function RemovePath(s: State, dir: nat, name: string, env: Env): (r: Checked)
    ensures r.At? ==> s.fs.Has(r.path) && !s.fs.Get(r.path).kind.Directory?
  {
    match OldPath(s, dir, name, env)
    case Failed(reply) => Failed(reply)
    case At(path) =>
      if env.attributes then Failed(SystemError)
      else if s.fs.Get(path).kind.Directory? then Failed(Refused(ISDIR))
      else Permitted(path, env.permission)
  }

  function Remove(s: State, dir: nat, name: string, env: Env): Outcome {
    match RemovePath(s, dir, name, env)
    case Failed(reply) => Outcome(s, reply)
    case At(path) =>
      if env.call.Some? then Outcome(s, UnlinkFailure(env.call.value))
      else Outcome(State(s.fs.Without(path), DropPath(s.cache, path)), Done)
  }

  // ------------------------------------------------------------------------ runs

  datatype Op = MntOp(path: string, env: Env)
              | GetAttrOp(inode: nat, env: Env)
              | LookupOp(dir: nat, name: string, env: Env)
              | CreateOp(dir: nat, name: string, env: Env)
              | LinkOp(target: nat, dir: nat, name: string, env: Env)
              | RemoveOp(dir: nat, name: string, env: Env)

  function Apply(s: State, op: Op): Outcome {
    match op
    case MntOp(path, env) => Mnt(s, path, env)
    case GetAttrOp(inode, env) => GetAttr(s, inode, env)
    case LookupOp(dir, name, env) => Lookup(s, dir, name, env)
    case CreateOp(dir, name, env) => Create(s, dir, name, env)
    case LinkOp(target, dir, name, env) => Link(s, target, dir, name, env)
    case RemoveOp(dir, name, env) => Remove(s, dir, name, env)
  }

  predicate InUse(fs: FileSystem, inode: nat) { exists p :: p in fs.nodes && fs.nodes[p].inode == inode }

  /** The file system gives a new file an inode number that no file has at the time; it may have been used before. */
  predicate Possible(s: State, op: Op) { op.CreateOp? ==> !InUse(s.fs, op.env.inode) }

  /** From any file system and an empty cache. */
  function Run(fs: FileSystem, ops: seq<Op>): State {
    if ops == [] then State(fs, []) else Apply(Run(fs, ops[..|ops| - 1]), ops[|ops| - 1]).state
  }

  predicate IsRun(fs: FileSystem, ops: seq<Op>) {
    ops == [] || (IsRun(fs, ops[..|ops| - 1]) && Possible(Run(fs, ops[..|ops| - 1]), ops[|ops| - 1]))
  }

  /** The inode numbers of the handles given out. */
  function GrantedInodes(fs: FileSystem, ops: seq<Op>): set<nat> {
    if ops == [] then {}
    else
      var reply := Apply(Run(fs, ops[..|ops| - 1]), ops[|ops| - 1]).reply;
      GrantedInodes(fs, ops[..|ops| - 1]) + if reply.Granted? then {reply.handle.inode} else {}
  }

  // --------------------------------------------------------------- implementation

  class NfsServer {
    var fs: FileSystem
    const cache: Cache

    ghost function Now(): State
      reads this, cache
    {
      State(fs, cache.mappings)
    }

    constructor (files: FileSystem)
      ensures Now() == Run(files, []) && fresh(cache)
    {
      fs := files;
      cache := new Cache();
    }

    method CreateHandle(path: string, env: Env) returns (handle: Option<Handle>)
      modifies cache
      ensures var m := MakeHandle(old(Now()), path, env);
              && (m.None? ==> handle.None? && cache.mappings == old(cache.mappings))
              && (m.Some? ==> handle == Some(m.value.handle) && cache.mappings == [m.value] + old(cache.mappings))
    {
      if env.handle || !fs.Has(path) {
        return None;
      }
      var h := Handle(fs.Get(path).inode, env.now);
      cache.Add(h, path);
      return Some(h);
    }

    method FindDirectory(dir: nat, env: Env) returns (r: Checked)
      ensures r == OpenDirectory(Now(), dir, env)
      ensures r.At? ==> cache.mappings != []
    {
      var m := cache.Find(dir);
      if m.None? {
        return Failed(Refused(NOENT));
      }
      var path := m.value.path;
      if env.dirStat || !fs.Has(path) {
        return Failed(SystemError);
      }
      if !fs.Get(path).kind.Directory? {
        return Failed(Refused(NOTDIR));
      }
      return At(path);
    }

    /** The checks of CREATE and LINK on the name to be made. */
    method FindNewPath(dir: nat, name: string, env: Env) returns (r: Checked)
      ensures r == NewPath(Now(), dir, name, env)
      ensures r.At? ==> cache.mappings != []
    {
      r := FindDirectory(dir, env);
      if r.At? {
        var path := PathIn(r.path, name);
        r := if |name| > NFS_MAXNAMLEN then Failed(Refused(NAMETOOLONG))
             else if env.stat then Failed(SystemError)
             else if fs.Has(path) then Failed(Refused(EXIST))
             else Permitted(path, env.permission);
      }
    }

    /** The checks of LOOKUP and REMOVE on the name that is there. */
    method FindOldPath(dir: nat, name: string, env: Env) returns (r: Checked)
      ensures r == OldPath(Now(), dir, name, env)
      ensures r.At? ==> cache.mappings != []
    {
      r := FindDirectory(dir, env);
      if r.At? {
        var path := PathIn(r.path, name);
        r := if env.stat then Failed(SystemError)
             else if !fs.Has(path) then Failed(Refused(NOENT))
             else At(path);
      }
    }

    method ServeMnt(path: string, env: Env) returns (reply: Reply)
      modifies this, cache
      ensures Outcome(Now(), reply) == Mnt(old(Now()), path, env)
    {
      if env.stat || (fs.Has(path) && env.attributes) {
        return SystemError;
      }
      if !fs.Has(path) {
        return Refused(NOENT);
      }
      if !fs.Get(path).kind.Directory? {
        return Refused(NOTDIR);
      }
      if !env.exported {
        return Refused(NOTEXP);
      }
      var permitted := Permitted(path, env.permission);
      if permitted.Failed? {
        return permitted.reply;
      }
      var handle := CreateHandle(path, env);
      return if handle.Some? then Granted(handle.value) else SystemError;
    }

    method ServeGetAttr(inode: nat, env: Env) returns (reply: Reply)
      ensures Outcome(Now(), reply) == GetAttr(Now(), inode, env)
    {
      var m := cache.Find(inode);
      if m.None? {
        return Refused(NOENT);
      }
      var permitted := Permitted(m.value.path, env.permission);
      if permitted.Failed? {
        return permitted.reply;
      }
      return if env.attributes || !fs.Has(m.value.path) then SystemError else Attributes(fs.Get(m.value.path));
    }

    /** The last look at a file for which a handle was made or found; the mapping is dropped if it fails. */
    method LookAgain(handle: Handle, env: Env) returns (reply: Reply)
      requires cache.mappings != []
      modifies cache
      ensures cache.mappings == (if env.attributes then DropInode(old(cache.mappings), handle.inode)
                                 else old(cache.mappings))
      ensures reply == if env.attributes then SystemError else Granted(handle)
    {
      if env.attributes {
        var _ := cache.RemoveByInode(handle.inode);
        return SystemError;
      }
      return Granted(handle);
    }

    method ServeLookup(dir: nat, name: string, env: Env) returns (reply: Reply)
      modifies this, cache
      ensures Outcome(Now(), reply) == Lookup(old(Now()), dir, name, env)
    {
      var at := FindOldPath(dir, name, env);
      if at.At? {
        at := Permitted(at.path, env.permission);
      }
      if at.Failed? {
        return at.reply;
      }
      var known := cache.Find(fs.Get(at.path).inode);
      var handle := if known.Some? then Some(known.value.handle) else None;
      if handle.None? {
        handle := CreateHandle(at.path, env);
        if handle.None? {
          return SystemError;
        }
      }
      reply := LookAgain(handle.value, env);
    }

    method ServeCreate(dir: nat, name: string, env: Env) returns (reply: Reply)
      modifies this, cache
      ensures Outcome(Now(), reply) == Create(old(Now()), dir, name, env)
    {
      var at := FindNewPath(dir, name, env);
      if at.Failed? {
        return at.reply;
      }
      var error := fs.Error(env.call, at.path);
      if error.Some? {
        return OpenFailure(error.value);
      }
      fs := fs.With(at.path, Node(env.inode, Regular));
      if env.setup {
        return SystemError;
      }
      var handle := CreateHandle(at.path, env);
      if handle.None? {
        return SystemError;
      }
      reply := LookAgain(handle.value, env);
    }

    method ServeLink(target: nat, dir: nat, name: string, env: Env) returns (reply: Reply)
      modifies this
      ensures Outcome(Now(), reply) == Link(old(Now()), target, dir, name, env)
    {
      var m := cache.Find(target);
      if m.None? {
        return Refused(NOENT);
      }
      var from := m.value.path;
      if env.targetStat || !fs.Has(from) {
        return SystemError;
      }
      if !fs.Get(from).kind.Regular? {
        return Refused(ISDIR);
      }
      var at := FindNewPath(dir, name, env);
      if at.Failed? {
        return at.reply;
      }
      var error := fs.Error(env.call, at.path);
      if error.Some? {
        return LinkFailure(error.value);
      }
      fs := fs.With(at.path, fs.Get(from));
      return Done;
    }

    method ServeRemove(dir: nat, name: string, env: Env) returns (reply: Reply)
      modifies this, cache
      ensures Outcome(Now(), reply) == Remove(old(Now()), dir, name, env)
    {
      var at := FindOldPath(dir, name, env);
      if at.At? {
        at := if env.attributes then Failed(SystemError)
              else if fs.Get(at.path).kind.Directory? then Failed(Refused(ISDIR))
              else Permitted(at.path, env.permission);
      }
      if at.Failed? {
        return at.reply;
      }
      if env.call.Some? {
        return UnlinkFailure(env.call.value);
      }
      fs := fs.Without(at.path);
      var _ := cache.RemoveByPath(at.path);
      return Done;
    }
  }
}
