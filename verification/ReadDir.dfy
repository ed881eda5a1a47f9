/**
 READDIR (section 2.2.17 of RFC 1094): pages of a directory served from cached
 sessions, and the client loop that joins the pages.  A directory does not change
 while it is read; a cookie is a position in it.
 */
module ReadDir {
  import opened Common

  const SESSION_TIMEOUT := 30

  /** A directory entry with the packed size of the message that describes it. */
  datatype Item = Item(fileid: nat, name: string, size: nat)

  type Directory = seq<Item>

  predicate PositiveSizes(dir: Directory) { forall i :: 0 <= i < |dir| ==> dir[i].size > 0 }

  // ----------------------------------------------------------------- one page

  datatype PageEntry = PageEntry(item: Item, cookie: nat)

  datatype Page = Page(entries: seq<PageEntry>, eof: bool)

  /** The summed sizes of `n` entries from a position on. */
  function Total(dir: Directory, from: nat, n: nat): nat
    requires from + n <= |dir|
  {
    if n == 0 then 0 else Total(dir, from, n - 1) + dir[from + n - 1].size
  }

  function Entries(dir: Directory, from: nat, n: nat): (es: seq<PageEntry>)
    requires from + n <= |dir|
    ensures |es| == n
    ensures forall i :: 0 <= i < n ==> es[i] == PageEntry(dir[from + i], from + i + 1)
  {
    seq(n, i requires 0 <= i < n => PageEntry(dir[from + i], from + i + 1))
  }

  /** seekdir and rewinddir: cookie 0 is the beginning, and nothing lies beyond the end. */
  function Start(dir: Directory, cookie: nat): nat { Min(cookie, |dir|) }

  /** The page for a cookie, independent of any session: see PageExactly. */
  predicate IsPage(dir: Directory, cookie: nat, count: nat, page: Page) {
    var from, n := Start(dir, cookie), |page.entries|;
    && from + n <= |dir| && page.entries == Entries(dir, from, n)
    && Total(dir, from, n) <= count
    && (from + n < |dir| ==> Total(dir, from, n + 1) > count)
    && (page.eof <==> from + n == |dir| && (n == 0 || Total(dir, from, n) < count))
  }

  lemma {:induction false} TotalMonotonic(dir: Directory, from: nat, n: nat, m: nat)
    requires PositiveSizes(dir) && n <= m && from + m <= |dir|
    ensures Total(dir, from, n) <= Total(dir, from, m)
    ensures n < m ==> Total(dir, from, n) < Total(dir, from, m)
    decreases m
  {
    if n < m { TotalMonotonic(dir, from, n, m - 1); }
  }

  /** There is one page for a cookie and a count, and it is the longest run that fits. */
  lemma PageExactly(dir: Directory, cookie: nat, count: nat, page: Page, other: Page)
    requires PositiveSizes(dir) && IsPage(dir, cookie, count, page)
    ensures IsPage(dir, cookie, count, other) ==> other == page
    ensures var from, n := Start(dir, cookie), |page.entries|;
            forall m :: n < m <= |dir| - from ==> Total(dir, from, m) > count
  {
    var from, n := Start(dir, cookie), |page.entries|;
    forall m | n < m <= |dir| - from ensures Total(dir, from, m) > count {
      TotalMonotonic(dir, from, n + 1, m);
    }
    if IsPage(dir, cookie, count, other) {
      var k := |other.entries|;
      if k < n { TotalMonotonic(dir, from, k + 1, n); }
      assert k == n;
    }
  }

  /** The page as the loop computes it from `n` entries on. */
  function PageFrom(dir: Directory, from: nat, count: nat, n: nat): (page: Page)
    requires from + n <= |dir|
    ensures from + |page.entries| <= |dir| && page.entries == Entries(dir, from, |page.entries|)
    decreases |dir| - from - n
  {
    if from + n == |dir| then Page(Entries(dir, from, n), true)
    else if Total(dir, from, n) + dir[from + n].size > count then Page(Entries(dir, from, n), false)
    else if Total(dir, from, n + 1) < count then PageFrom(dir, from, count, n + 1)
    else Page(Entries(dir, from, n + 1), false)
  }

  /** The stateless pager. */
  function PageOf(dir: Directory, cookie: nat, count: nat): Page {
    PageFrom(dir, Start(dir, cookie), count, 0)
  }

  lemma {:induction false} PageFromIsPage(dir: Directory, from: nat, count: nat, n: nat)
    requires PositiveSizes(dir) && from + n <= |dir|
    requires Total(dir, from, n) < count || n == 0
    ensures IsPage(dir, from, count, PageFrom(dir, from, count, n))
    decreases |dir| - from - n
  {
    if from + n < |dir| && Total(dir, from, n + 1) <= count {
      if Total(dir, from, n + 1) < count {
        PageFromIsPage(dir, from, count, n + 1);
      } else if from + n + 1 < |dir| {
        TotalMonotonic(dir, from, n + 1, n + 2);
      }
    }
  }

  lemma PageOfIsPage(dir: Directory, cookie: nat, count: nat)
    requires PositiveSizes(dir)
    ensures IsPage(dir, cookie, count, PageOf(dir, cookie, count))
  {
    PageFromIsPage(dir, Start(dir, cookie), count, 0);
  }

  // --------------------------------------------------------------- the sessions

  datatype Auth = Auth(machinename: string, uid: nat, gid: nat)

  /** The comparison of clients; the source compares the second gid with itself. */
  predicate SameClient(a: Auth, b: Auth) {
    a.machinename == b.machinename && a.uid == b.uid && b.gid == b.gid
  }

  /** So clients are told apart by machine and user alone; two groups of a user share a session. */
  lemma SameClientExactly(a: Auth, b: Auth)
    ensures SameClient(a, b) <==> a.machinename == b.machinename && a.uid == b.uid
    ensures forall g: nat :: SameClient(a, a.(gid := g))
  {
  }

  /** A session with its open directory stream, which remembers a position. */
  datatype Session = Session(client: Auth, inode: nat, position: nat, timestamp: int)

  predicate Matches(s: Session, client: Auth, inode: nat) { s.inode == inode && SameClient(client, s.client) }

  /** The first session of a client and a directory. */
  function IndexOf(ss: seq<Session>, client: Auth, inode: nat): (i: nat)
    ensures i <= |ss|
    ensures i < |ss| ==> Matches(ss[i], client, inode)
    ensures forall j :: 0 <= j < i ==> !Matches(ss[j], client, inode)
  {
    if ss == [] || Matches(ss[0], client, inode) then 0 else 1 + IndexOf(ss[1..], client, inode)
  }

  lemma IndexIs(ss: seq<Session>, client: Auth, inode: nat, k: nat)
    requires k < |ss| && Matches(ss[k], client, inode)
    requires forall j :: 0 <= j < k ==> !Matches(ss[j], client, inode)
    ensures IndexOf(ss, client, inode) == k
  {
    var i := IndexOf(ss, client, inode);
    if i < k { assert Matches(ss[i], client, inode); }
  }

  predicate OnePerClientAndDirectory(ss: seq<Session>) {
    forall i, j :: 0 <= i < j < |ss| ==> !Matches(ss[j], ss[i].client, ss[i].inode)
  }

  function Expire(ss: seq<Session>, now: int): (r: seq<Session>) {
    if ss == [] then []
    else if now - ss[0].timestamp > SESSION_TIMEOUT then Expire(ss[1..], now)
    else [ss[0]] + Expire(ss[1..], now)
  }

  /** Where the system calls of a request fail, if they do. */
  datatype Faults = Faults(openFails: bool, readFailsAt: Option<nat>, tellFailsAt: Option<nat>)

  datatype Request = Request(client: Auth, inode: nat, cookie: nat, count: nat, now: int, faults: Faults)

  datatype Response = Failed(code: nat) | Ok(page: Page)

  /** What the loop got out of the directory stream, and where it left it. */
  datatype Scan = Scan(failure: Option<nat>, page: Page, position: nat)

  /** The loop that reads the stream from where it stands, with `entries` read of summed size `total`. */
  function ReadStream(dir: Directory, position: nat, count: nat, entries: seq<PageEntry>, total: nat, f: Faults)
    : (scan: Scan)
    ensures scan.failure.Some? ==> scan.failure.value == 5 || scan.failure.value == 6
    decreases |dir| - position
  {
    if f.readFailsAt == Some(|entries|) then Scan(Some(5), Page([], false), position)
    else if position >= |dir| then Scan(None, Page(entries, true), position)
    else if f.tellFailsAt == Some(|entries|) then Scan(Some(6), Page([], false), position + 1)
    else if total + dir[position].size > count then Scan(None, Page(entries, false), position + 1)
    else
      var entries' := entries + [PageEntry(dir[position], position + 1)];
      var total' := total + dir[position].size;
      if total' < count then ReadStream(dir, position + 1, count, entries', total', f)
      else Scan(None, Page(entries', false), position + 1)
  }

  /** From `n` entries after a position on, the loop computes the page of the pager that starts there. */
  lemma {:induction false} ReadStreamIsPage(dir: Directory, from: nat, count: nat, n: nat, f: Faults)
    requires from + n <= |dir|
    ensures var r := ReadStream(dir, from + n, count, Entries(dir, from, n), Total(dir, from, n), f);
            r.failure.None? ==> r.page == PageFrom(dir, from, count, n)
    decreases |dir| - from - n
  {
    if from + n < |dir| {
      assert Entries(dir, from, n) + [PageEntry(dir[from + n], from + n + 1)] == Entries(dir, from, n + 1);
      ReadStreamIsPage(dir, from, count, n + 1, f);
    }
  }

  /** The number of the last readdir call for a page of `n` entries: one more than these, unless they fill it. */
  function LastRead(dir: Directory, from: nat, count: nat, n: nat): int
    requires from + n <= |dir|
  {
    if n == 0 || Total(dir, from, n) < count then n else n - 1
  }

  /** The number of the last telldir call: none is made at the end of the directory. */
  function LastTell(dir: Directory, from: nat, count: nat, n: nat): int
    requires from + n <= |dir|
  {
    if from + n == |dir| then n - 1 else LastRead(dir, from, count, n)
  }

  predicate Reached(fault: Option<nat>, last: int) { fault.Some? && fault.value <= last }

  /** The error of a scan whose page, without faults, has `n` entries: the first fault that is reached. */
  function FirstFault(dir: Directory, from: nat, count: nat, n: nat, f: Faults): Option<nat>
    requires from + n <= |dir|
  {
    var readFails := Reached(f.readFailsAt, LastRead(dir, from, count, n));
    var tellFails := Reached(f.tellFailsAt, LastTell(dir, from, count, n));
    if readFails && (!tellFails || f.readFailsAt.value <= f.tellFailsAt.value) then Some(5)
    else if tellFails then Some(6)
    else None
  }

  /** Where the stream is left: at the entry that could not be read, or after the last that was. */
  function LeftAt(dir: Directory, from: nat, count: nat, n: nat, f: Faults): int
    requires from + n <= |dir|
  {
    match FirstFault(dir, from, count, n, f)
    case None => from + LastTell(dir, from, count, n) + 1
    case Some(5) => from + f.readFailsAt.value
    case Some(_) => from + f.tellFailsAt.value + 1
  }

  /** A scan is determined by the pager and the faults: it fails at the first fault it reaches, and only then. */
  lemma {:induction false} ScanExactly(dir: Directory, from: nat, count: nat, n: nat, f: Faults)
    requires from + n <= |dir| && (n == 0 || Total(dir, from, n) < count)
    requires (f.readFailsAt.Some? ==> n <= f.readFailsAt.value) && (f.tellFailsAt.Some? ==> n <= f.tellFailsAt.value)
    ensures var r := ReadStream(dir, from + n, count, Entries(dir, from, n), Total(dir, from, n), f);
            var page := PageFrom(dir, from, count, n);
            && r.failure == FirstFault(dir, from, count, |page.entries|, f)
            && r.position == LeftAt(dir, from, count, |page.entries|, f)
            && r.page == if r.failure.None? then page else Page([], false)
    decreases |dir| - from - n
  {
    PageFromGrows(dir, from, count, n);
    if from + n < |dir| && f.readFailsAt != Some(n) && f.tellFailsAt != Some(n) {
      assert Entries(dir, from, n) + [PageEntry(dir[from + n], from + n + 1)] == Entries(dir, from, n + 1);
      if Total(dir, from, n + 1) < count {
        ScanExactly(dir, from, count, n + 1, f);
      }
    }
  }

  lemma {:induction false} PageFromGrows(dir: Directory, from: nat, count: nat, n: nat)
    requires from + n <= |dir|
    ensures |PageFrom(dir, from, count, n).entries| >= n
    ensures from + n < |dir| && Total(dir, from, n + 1) <= count ==> |PageFrom(dir, from, count, n).entries| > n
    decreases |dir| - from - n
  {
    if from + n < |dir| { PageFromGrows(dir, from, count, n + 1); }
  }

  /** Two streams that stand at different places give different pages, unless neither gives an entry. */
  lemma PositionMatters(dir: Directory, p: nat, q: nat, count: nat, f: Faults)
    requires p < q <= |dir|
    ensures var r, r' := ReadStream(dir, p, count, [], 0, f), ReadStream(dir, q, count, [], 0, f);
            r.failure.None? && r'.failure.None? && r.page.entries != [] ==> r.page != r'.page
  {
    ReadStreamIsPage(dir, p, count, 0, f);
    ReadStreamIsPage(dir, q, count, 0, f);
    assert Entries(dir, p, 0) == [] && Entries(dir, q, 0) == [];
    var a, b := PageFrom(dir, p, count, 0).entries, PageFrom(dir, q, count, 0).entries;
    assert a != [] ==> a[0].cookie == p + 1;
    assert b != [] ==> b[0].cookie == q + 1;
  }

  /** The list with a session for the request, and its position; None when the directory cannot be opened. */
  function WithSession(fs: map<nat, Directory>, ss: seq<Session>, q: Request): (r: Option<(seq<Session>, nat)>)
    ensures r.Some? ==> r.value.1 < |r.value.0| && IndexOf(r.value.0, q.client, q.inode) == r.value.1
  {
    var i := IndexOf(ss, q.client, q.inode);
    if i < |ss| then Some((ss, i))
    else if q.faults.openFails || q.inode !in fs then None
    else Some(([Session(q.client, q.inode, 0, q.now)] + ss, 0))
  }

  /** rewinddir and seekdir: the stream of the session at position `k` is moved. */
  function Sought(dir: Directory, ss: seq<Session>, k: nat, cookie: nat): seq<Session>
    requires k < |ss|
  {
    ss[k := ss[k].(position := Start(dir, cookie))]
  }

  /** Reads a page from the stream of the session at position `k`, wherever it stands. */
  function ReadSession(dir: Directory, ss: seq<Session>, k: nat, q: Request): (seq<Session>, Response)
    requires k < |ss|
  {
    var scan := ReadStream(dir, ss[k].position, q.count, [], 0, q.faults);
    var moved := ss[k].(position := scan.position);
    if scan.failure.Some? then (ss[k := moved], Failed(scan.failure.value))
    else if scan.page.eof then (ss[..k] + ss[k + 1..], Ok(scan.page))
    else (ss[k := moved.(timestamp := q.now)], Ok(scan.page))
  }

  function Answer(dir: Directory, ss: seq<Session>, k: nat, q: Request): (seq<Session>, Response)
    requires k < |ss|
  {
    ReadSession(dir, Sought(dir, ss, k, q.cookie), k, q)
  }

  /** The sessions and the answer after a request; a session's stream is of the directory it was opened for. */
  function Serve(fs: map<nat, Directory>, ss: seq<Session>, q: Request): (seq<Session>, Response) {
    match WithSession(fs, ss, q)
    case None => (ss, Failed(3))
    case Some((ss', k)) =>
      var source := ss'[k].inode;
      Answer(if source in fs then fs[source] else [], ss', k, q)
  }

  // ----------------------------------------------------- over all runs of requests

  datatype Op = Read(request: Request) | CleanUp(now: int)

  function Apply(fs: map<nat, Directory>, ss: seq<Session>, op: Op): seq<Session> {
    match op
    case Read(q) => Serve(fs, ss, q).0
    case CleanUp(now) => Expire(ss, now)
  }

  function Run(fs: map<nat, Directory>, ops: seq<Op>): seq<Session> {
    if ops == [] then [] else Apply(fs, Run(fs, ops[..|ops| - 1]), ops[|ops| - 1])
  }

  /** Every session is for a directory there is. */
  predicate SessionsOk(fs: map<nat, Directory>, ss: seq<Session>) {
    && OnePerClientAndDirectory(ss)
    && forall i :: 0 <= i < |ss| ==> ss[i].inode in fs
  }

  lemma OpeningKeepsSessions(fs: map<nat, Directory>, ss: seq<Session>, q: Request)
    requires SessionsOk(fs, ss)
    ensures WithSession(fs, ss, q).Some? ==> SessionsOk(fs, WithSession(fs, ss, q).value.0) && q.inode in fs
  {
    var ss' := [Session(q.client, q.inode, 0, q.now)] + ss;
    assert forall j :: 0 < j < |ss'| ==> ss'[j] == ss[j - 1];
  }

  lemma AnsweringKeepsSessions(fs: map<nat, Directory>, dir: Directory, ss: seq<Session>, k: nat, q: Request)
    requires SessionsOk(fs, ss) && k < |ss|
    ensures SessionsOk(fs, Answer(dir, ss, k, q).0)
  {
    var r := Answer(dir, ss, k, q).0;
    if |r| < |ss| {
      assert forall j :: 0 <= j < |r| ==> r[j] == ss[if j < k then j else j + 1];
    }
  }

  lemma ServeKeepsSessions(fs: map<nat, Directory>, ss: seq<Session>, q: Request)
    requires SessionsOk(fs, ss)
    ensures SessionsOk(fs, Serve(fs, ss, q).0)
  {
    OpeningKeepsSessions(fs, ss, q);
    match WithSession(fs, ss, q)
    case None =>
    case Some((ss', k)) => AnsweringKeepsSessions(fs, fs[q.inode], ss', k, q);
  }

  lemma {:induction false} ExpireExactly(ss: seq<Session>, now: int)
    ensures forall s :: s in Expire(ss, now) <==> s in ss && now - s.timestamp <= SESSION_TIMEOUT
    ensures |Expire(ss, now)| <= |ss|
    ensures OnePerClientAndDirectory(ss) ==> OnePerClientAndDirectory(Expire(ss, now))
  {
    if ss != [] {
      ExpireExactly(ss[1..], now);
      assert ss == [ss[0]] + ss[1..];
      var r, r' := Expire(ss, now), Expire(ss[1..], now);
      if OnePerClientAndDirectory(ss) {
        assert OnePerClientAndDirectory(ss[1..]);
        forall i, j | 0 <= i < j < |r| ensures !Matches(r[j], r[i].client, r[i].inode) {
          if r != r' && i == 0 {
            assert r[j] == r'[j - 1] && r[j] in ss[1..];
          }
        }
      }
    }
  }

  /** Expiry looks at each session by itself, so it keeps their order. */
  lemma {:induction false} ExpireInOrder(a: seq<Session>, b: seq<Session>, now: int)
    ensures Expire(a + b, now) == Expire(a, now) + Expire(b, now)
  {
    if a == [] {
      assert a + b == b;
    } else {
      assert (a + b)[1..] == a[1..] + b;
      ExpireInOrder(a[1..], b, now);
    }
  }

  lemma ExpireKeepsSessions(fs: map<nat, Directory>, ss: seq<Session>, now: int)
    requires SessionsOk(fs, ss)
    ensures SessionsOk(fs, Expire(ss, now))
  {
    ExpireExactly(ss, now);
    var r := Expire(ss, now);
    forall i | 0 <= i < |r| ensures r[i].inode in fs {
      assert r[i] in ss;
    }
  }

  lemma {:induction false} SessionsInEveryRun(fs: map<nat, Directory>, ops: seq<Op>)
    ensures SessionsOk(fs, Run(fs, ops))
    decreases |ops|
  {
    if ops != [] {
      var before, op := Run(fs, ops[..|ops| - 1]), ops[|ops| - 1];
      SessionsInEveryRun(fs, ops[..|ops| - 1]);
      match op
      case Read(q) => ServeKeepsSessions(fs, before, q);
      case CleanUp(now) =>
        ExpireKeepsSessions(fs, before, now);
    }
  }

  /**
   After any interleaving of requests of any clients and of clean-ups, a successful
   answer is the page computed from the directory, the cookie and the count alone.
   */
  lemma SessionsRefineStatelessPager(fs: map<nat, Directory>, ops: seq<Op>, q: Request)
    requires forall inode :: inode in fs ==> PositiveSizes(fs[inode])
    ensures var r := Serve(fs, Run(fs, ops), q).1;
            r.Ok? ==>
              && q.inode in fs && r.page == PageOf(fs[q.inode], q.cookie, q.count)
              && IsPage(fs[q.inode], q.cookie, q.count, r.page)
  {
    SessionsInEveryRun(fs, ops);
    OpeningKeepsSessions(fs, Run(fs, ops), q);
    if q.inode in fs {
      var dir := fs[q.inode];
      PageOfIsPage(dir, q.cookie, q.count);
      ReadStreamIsPage(dir, Start(dir, q.cookie), q.count, 0, q.faults);
      assert Entries(dir, Start(dir, q.cookie), 0) == [];
    }
  }

  predicate HasSession(ss: seq<Session>, client: Auth, inode: nat) { IndexOf(ss, client, inode) < |ss| }

  /** The answer to a request whose directory is read, from the pager and the faults alone. */
  function AnswerOf(dir: Directory, q: Request): Response {
    var page := PageOf(dir, q.cookie, q.count);
    match FirstFault(dir, Start(dir, q.cookie), q.count, |page.entries|, q.faults)
    case None => Ok(page)
    case Some(code) => Failed(code)
  }

  /**
   After any run, every request has its answer: it fails with 3 exactly if there is no session
   and the directory cannot be opened; otherwise it is that of the pager, or the first fault.
   */
  lemma AnswersExactly(fs: map<nat, Directory>, ops: seq<Op>, q: Request)
    ensures var ss := Run(fs, ops);
            if HasSession(ss, q.client, q.inode) || (q.inode in fs && !q.faults.openFails)
            then q.inode in fs && Serve(fs, ss, q).1 == AnswerOf(fs[q.inode], q)
            else Serve(fs, ss, q) == (ss, Failed(3))
  {
    var ss := Run(fs, ops);
    SessionsInEveryRun(fs, ops);
    OpeningKeepsSessions(fs, ss, q);
    if q.inode in fs {
      var dir := fs[q.inode];
      ScanExactly(dir, Start(dir, q.cookie), q.count, 0, q.faults);
      assert Entries(dir, Start(dir, q.cookie), 0) == [];
    }
  }

  /** So without faults a request for a directory there is succeeds. */
  lemma CalmRequestsSucceed(fs: map<nat, Directory>, ops: seq<Op>, q: Request)
    requires q.inode in fs && q.faults == Faults(false, None, None)
    ensures Serve(fs, Run(fs, ops), q).1 == Ok(PageOf(fs[q.inode], q.cookie, q.count))
  {
    AnswersExactly(fs, ops, q);
  }

  /** The sessions of others, in order. */
  function Others(ss: seq<Session>, client: Auth, inode: nat): seq<Session> {
    if ss == [] then []
    else (if Matches(ss[0], client, inode) then [] else [ss[0]]) + Others(ss[1..], client, inode)
  }

  lemma {:induction false} OthersAppend(a: seq<Session>, b: seq<Session>, client: Auth, inode: nat)
    ensures Others(a + b, client, inode) == Others(a, client, inode) + Others(b, client, inode)
  {
    if a == [] {
      assert a + b == b;
    } else {
      assert (a + b)[1..] == a[1..] + b;
      OthersAppend(a[1..], b, client, inode);
    }
  }

  lemma OthersWithout(ss: seq<Session>, k: nat, replaced: seq<Session>, client: Auth, inode: nat)
    requires k < |ss| && Matches(ss[k], client, inode) && Others(replaced, client, inode) == []
    ensures Others(ss[..k] + replaced + ss[k + 1..], client, inode) == Others(ss, client, inode)
  {
    var a, b := ss[..k], ss[k + 1..];
    OthersAppend(a + replaced, b, client, inode);
    OthersAppend(a, replaced, client, inode);
    assert ss == a + [ss[k]] + b && Others([ss[k]], client, inode) == [];
    OthersAppend(a + [ss[k]], b, client, inode);
    OthersAppend(a, [ss[k]], client, inode);
  }

  lemma OpeningKeepsOthers(fs: map<nat, Directory>, ss: seq<Session>, q: Request)
    requires WithSession(fs, ss, q).Some?
    ensures var (open, k) := WithSession(fs, ss, q).value;
            && Others(open, q.client, q.inode) == Others(ss, q.client, q.inode)
            && open[k].timestamp == (if HasSession(ss, q.client, q.inode) then ss[k].timestamp else q.now)
            && (HasSession(ss, q.client, q.inode) ==> open == ss)
  {
    var fresh' := Session(q.client, q.inode, 0, q.now);
    assert ([fresh'] + ss)[1..] == ss;
  }

  lemma ReadingKeepsOthers(dir: Directory, ss: seq<Session>, k: nat, q: Request)
    requires k < |ss| && Matches(ss[k], q.client, q.inode)
    ensures Others(ReadSession(dir, ss, k, q).0, q.client, q.inode) == Others(ss, q.client, q.inode)
  {
    var scan := ReadStream(dir, ss[k].position, q.count, [], 0, q.faults);
    var moved := ss[k].(position := scan.position);
    OthersUpdated(ss, k, moved, q.client, q.inode);
    OthersUpdated(ss, k, moved.(timestamp := q.now), q.client, q.inode);
    OthersRemoved(ss, k, q.client, q.inode);
  }

  lemma OthersUpdated(ss: seq<Session>, k: nat, s: Session, client: Auth, inode: nat)
    requires k < |ss| && Matches(ss[k], client, inode) && Matches(s, client, inode)
    ensures Others(ss[k := s], client, inode) == Others(ss, client, inode)
  {
    OthersWithout(ss, k, [s], client, inode);
    assert ss[k := s] == ss[..k] + [s] + ss[k + 1..];
  }

  lemma OthersRemoved(ss: seq<Session>, k: nat, client: Auth, inode: nat)
    requires k < |ss| && Matches(ss[k], client, inode)
    ensures Others(ss[..k] + ss[k + 1..], client, inode) == Others(ss, client, inode)
  {
    OthersWithout(ss, k, [], client, inode);
    assert ss[..k] + [] + ss[k + 1..] == ss[..k] + ss[k + 1..];
  }

  /** The timestamp of the session of a client and a directory. */
  function LastRequest(ss: seq<Session>, client: Auth, inode: nat): Option<int> {
    var i := IndexOf(ss, client, inode);
    if i < |ss| then Some(ss[i].timestamp) else None
  }

  predicate AloneAt(ss: seq<Session>, k: nat, client: Auth, inode: nat) {
    && k < |ss| && Matches(ss[k], client, inode)
    && forall j :: 0 <= j < |ss| && j != k ==> !Matches(ss[j], client, inode)
  }

  lemma AloneIsFirst(ss: seq<Session>, k: nat, client: Auth, inode: nat)
    requires AloneAt(ss, k, client, inode)
    ensures IndexOf(ss, client, inode) == k && LastRequest(ss, client, inode) == Some(ss[k].timestamp)
    ensures LastRequest(ss[..k] + ss[k + 1..], client, inode) == None
  {
    IndexIs(ss, client, inode, k);
    var rest := ss[..k] + ss[k + 1..];
    forall j | 0 <= j < |rest| ensures !Matches(rest[j], client, inode) {
      assert rest[j] == ss[if j < k then j else j + 1];
    }
  }

  lemma ReadingSetsTime(dir: Directory, ss: seq<Session>, k: nat, q: Request)
    requires AloneAt(ss, k, q.client, q.inode)
    ensures var (ss', r) := ReadSession(dir, ss, k, q);
            LastRequest(ss', q.client, q.inode) ==
            if r.Failed? then Some(ss[k].timestamp) else if r.page.eof then None else Some(q.now)
  {
    var ss' := ReadSession(dir, ss, k, q).0;
    AloneIsFirst(ss, k, q.client, q.inode);
    if |ss'| == |ss| {
      assert AloneAt(ss', k, q.client, q.inode);
      AloneIsFirst(ss', k, q.client, q.inode);
    }
  }

  lemma SessionIsAlone(fs: map<nat, Directory>, ss: seq<Session>, client: Auth, inode: nat)
    requires SessionsOk(fs, ss) && HasSession(ss, client, inode)
    ensures AloneAt(ss, IndexOf(ss, client, inode), client, inode)
  {
    var k := IndexOf(ss, client, inode);
    forall j | 0 <= j < |ss| && j != k ensures !Matches(ss[j], client, inode) {
      if j > k { assert !Matches(ss[j], ss[k].client, ss[k].inode); }
    }
  }

  /**
   What a request does to the sessions: those of others stay in order; its own is gone after the
   end of the directory, has the time of a request that succeeded, and keeps its time, or has that
   of its opening, after one that failed.
   */
  lemma SessionsAfter(fs: map<nat, Directory>, ss: seq<Session>, q: Request)
    requires SessionsOk(fs, ss)
    ensures var (ss', r) := Serve(fs, ss, q);
            && Others(ss', q.client, q.inode) == Others(ss, q.client, q.inode)
            && LastRequest(ss', q.client, q.inode) ==
               (if r.Ok? then if r.page.eof then None else Some(q.now)
                else if HasSession(ss, q.client, q.inode) || r.code == 3 then LastRequest(ss, q.client, q.inode)
                else Some(q.now))
  {
    OpeningKeepsSessions(fs, ss, q);
    var opening := WithSession(fs, ss, q);
    if opening.Some? {
      var (open, k) := opening.value;
      OpeningKeepsOthers(fs, ss, q);
      var dir, sought := fs[q.inode], Sought(fs[q.inode], open, k, q.cookie);
      ReadingKeepsOthers(dir, sought, k, q);
      OthersUpdated(open, k, sought[k], q.client, q.inode);
      SessionIsAlone(fs, open, q.client, q.inode);
      assert AloneAt(sought, k, q.client, q.inode);
      ReadingSetsTime(dir, sought, k, q);
    }
  }

  /** A session outlives every clean-up within 30 seconds of a request that succeeded short of the end. */
  lemma SessionInUseSurvives(fs: map<nat, Directory>, ss: seq<Session>, q: Request, now: int)
    requires SessionsOk(fs, ss) && now <= q.now + 30
    requires Serve(fs, ss, q).1.Ok? && !Serve(fs, ss, q).1.page.eof
    ensures HasSession(Expire(Serve(fs, ss, q).0, now), q.client, q.inode)
  {
    var ss' := Serve(fs, ss, q).0;
    SessionsAfter(fs, ss, q);
    ExpireExactly(ss', now);
    var s := ss'[IndexOf(ss', q.client, q.inode)];
    assert s in Expire(ss', now);
    var k :| 0 <= k < |Expire(ss', now)| && Expire(ss', now)[k] == s;
  }

  // --------------------------------------------------------- the server, in place

  /** A list whose first `i` sessions have been looked at. */
  function Partly(ss: seq<Session>, i: nat, now: int): seq<Session>
    requires i <= |ss|
  {
    ss[..i] + Expire(ss[i..], now)
  }

  lemma PartlyStep(ss: seq<Session>, i: nat, now: int)
    requires i < |ss|
    ensures Partly(ss, i, now) ==
            if now - ss[i].timestamp > SESSION_TIMEOUT then Partly(ss[..i] + ss[i + 1..], i, now)
            else Partly(ss, i + 1, now)
  {
    var shorter := ss[..i] + ss[i + 1..];
    assert ss[i..] == [ss[i]] + ss[i + 1..];
    assert shorter[..i] == ss[..i] && shorter[i..] == ss[i + 1..];
    assert ss[..i + 1] == ss[..i] + [ss[i]];
  }

  class ReadDirServer {
    const fs: map<nat, Directory>
    var sessions: seq<Session>
    var openStreams: nat  // directory streams opened and not yet closed

    ghost predicate Valid()
      reads this
    {
      SessionsOk(fs, sessions) && openStreams == |sessions|
    }

    constructor (fs: map<nat, Directory>)
      ensures Valid() && this.fs == fs && sessions == []
    {
      this.fs, sessions, openStreams := fs, [], 0;
    }

    method FindSession(client: Auth, inode: nat) returns (i: nat)
      ensures i == IndexOf(sessions, client, inode)
    {
      i := 0;
      while i < |sessions| && !Matches(sessions[i], client, inode)
        invariant i <= IndexOf(sessions, client, inode)
      {
        i := i + 1;
      }
    }

    /** Opens the directory and puts a session at the head of the list. */
    method AddNewSession(client: Auth, inode: nat, now: int, openFails: bool) returns (code: nat)
      modifies this
      ensures code == if openFails || inode !in fs then 2 else 0
      ensures sessions == if code == 0 then [Session(client, inode, 0, now)] + old(sessions) else old(sessions)
      ensures openStreams == old(openStreams) + if code == 0 then 1 else 0
    {
      if openFails || inode !in fs {
        return 2;
      }
      openStreams := openStreams + 1;
      sessions := [Session(client, inode, 0, now)] + sessions;
      return 0;
    }

    /** Unlinks the first session of a client and a directory and closes its stream. */
    method RemoveSession(client: Auth, inode: nat) returns (code: nat)
      requires openStreams == |sessions|
      modifies this
      ensures openStreams == |sessions|
      ensures var i := IndexOf(old(sessions), client, inode);
              if i < |old(sessions)| then code == 0 && sessions == old(sessions)[..i] + old(sessions)[i + 1..]
              else code == 6 && sessions == old(sessions)
    {
      var i := FindSession(client, inode);
      if i == |sessions| {
        return 6;
      }
      openStreams := openStreams - 1;
      sessions := sessions[..i] + sessions[i + 1..];
      return 0;
    }

    /** rewinddir or seekdir. */
    method Seek(dir: Directory, k: nat, cookie: nat)
      requires k < |sessions|
      modifies this`sessions
      ensures sessions == Sought(dir, old(sessions), k, cookie)
    {
      var position := if cookie == 0 then 0 else Start(dir, cookie);
      sessions := sessions[k := sessions[k].(position := position)];
    }

    /** readdir: the entry where the stream of a session stands, which moves past it. */
    method ReadEntry(dir: Directory, k: nat) returns (item: Option<Item>)
      requires k < |sessions|
      modifies this`sessions
      ensures var p := old(sessions)[k].position;
              if p >= |dir| then item == None && sessions == old(sessions)
              else item == Some(dir[p]) && sessions == old(sessions)[k := old(sessions)[k].(position := p + 1)]
    {
      var p := sessions[k].position;
      if p >= |dir| {
        return None;
      }
      sessions := sessions[k := sessions[k].(position := p + 1)];
      return Some(dir[p]);
    }

    /** Reads entries of a session's stream until the page is full or the end is reached. */
    method ReadEntries(dir: Directory, k: nat, count: nat, f: Faults) returns (code: nat, page: Page)
      requires k < |sessions|
      modifies this`sessions
      ensures var scan := ReadStream(dir, old(sessions)[k].position, count, [], 0, f);
              && code == (if scan.failure.None? then 0 else scan.failure.value) && page == scan.page
              && sessions == old(sessions)[k := old(sessions)[k].(position := scan.position)]
    {
      ghost var ss := sessions;
      ghost var scan := ReadStream(dir, sessions[k].position, count, [], 0, f);
      var total: nat, entries: seq<PageEntry> := 0, [];
      var more := true;
      while more
        invariant |sessions| == |ss| && sessions == ss[k := ss[k].(position := sessions[k].position)]
        invariant if more then scan == ReadStream(dir, sessions[k].position, count, entries, total, f)
                  else scan == Scan(None, Page(entries, false), sessions[k].position)
        decreases more, |dir| - sessions[k].position
      {
        if f.readFailsAt == Some(|entries|) {
          return 5, Page([], false);
        }
        var item := ReadEntry(dir, k);
        if item.None? {
          return 0, Page(entries, true);
        }
        if f.tellFailsAt == Some(|entries|) {
          return 6, Page([], false);
        }
        if total + item.value.size > count {
          return 0, Page(entries, false);
        }
        total := total + item.value.size;
        entries := entries + [PageEntry(item.value, sessions[k].position)];
        more := total < count;
      }
      return 0, Page(entries, false);
    }

    /** Finds the session of a request, or opens one. */
    method GetSession(q: Request) returns (k: Option<nat>)
      requires Valid()
      modifies this
      ensures Valid()
      ensures match WithSession(fs, old(sessions), q)
              case None => k == None && sessions == old(sessions)
              case Some((ss, i)) => k == Some(i) && sessions == ss && q.inode in fs
    {
      OpeningKeepsSessions(fs, sessions, q);
      var i := FindSession(q.client, q.inode);
      if i < |sessions| {
        return Some(i);
      }
      var added := AddNewSession(q.client, q.inode, q.now, q.faults.openFails);
      return if added > 0 then None else Some(0);
    }

    /** Reads a page for the session at position `k`, and ends the session at the end of the directory. */
    method AnswerRequest(dir: Directory, k: nat, q: Request) returns (r: Response)
      requires Valid() && k < |sessions| && IndexOf(sessions, q.client, q.inode) == k
      modifies this
      ensures Valid()
      ensures (sessions, r) == Answer(dir, old(sessions), k, q)
    {
      ghost var ss := sessions;
      AnsweringKeepsSessions(fs, dir, ss, k, q);
      Seek(dir, k, q.cookie);
      ghost var sought := sessions;
      var code, page := ReadEntries(dir, k, q.count, q.faults);
      if code > 0 {
        return Failed(code);
      }
      sessions := sessions[k := sessions[k].(timestamp := q.now)];
      assert sessions == sought[k := sessions[k]];
      if page.eof {
        IndexIs(sessions, q.client, q.inode, k);
        var removed := RemoveSession(q.client, q.inode);
        assert removed == 0;
        assert sessions == sought[..k] + sought[k + 1..];
      }
      return Ok(page);
    }

    method ReadFromDirectory(q: Request) returns (r: Response)
      requires Valid()
      modifies this
      ensures Valid()
      ensures (sessions, r) == Serve(fs, old(sessions), q)
    {
      var found := GetSession(q);
      if found.None? {
        return Failed(3);
      }
      r := AnswerRequest(fs[sessions[found.value].inode], found.value, q);
    }

    /** Drops the sessions that have not been read for more than the timeout. */
    method CleanUpExpired(now: int)
      requires Valid()
      modifies this
      ensures Valid() && sessions == Expire(old(sessions), now)
    {
      ghost var all := sessions;
      ExpireKeepsSessions(fs, all, now);
      var i := 0;
      while i < |sessions|
        invariant 0 <= i <= |sessions| && openStreams == |sessions| && SessionsOk(fs, Expire(all, now))
        invariant Expire(all, now) == Partly(sessions, i, now)
        decreases |sessions| - i
      {
        PartlyStep(sessions, i, now);
        if now - sessions[i].timestamp > SESSION_TIMEOUT {
          sessions := sessions[..i] + sessions[i + 1..];
          openStreams := openStreams - 1;
        } else {
          i := i + 1;
        }
      }
      assert sessions == Expire(all, now) by {
        assert sessions[..i] == sessions && sessions[i..] == [];
      }
      assert SessionsOk(fs, sessions);
    }
  }

  // ------------------------------------------------------------ the client's loop

  datatype Listing = Listing(items: seq<Item>, cookie: nat, done: bool)

  const EMPTY_LISTING := Listing([], 0, false)

  function ItemsOf(es: seq<PageEntry>): (r: seq<Item>)
    ensures |r| == |es|
    ensures forall i :: 0 <= i < |r| ==> r[i] == es[i].item
  {
    seq(|es|, i requires 0 <= i < |es| => es[i].item)
  }

  /** What one page adds to the listing. */
  function Join(l: Listing, page: Page): Listing {
    Listing(l.items + ItemsOf(page.entries),
            if page.entries == [] then l.cookie else page.entries[|page.entries| - 1].cookie,
            page.eof)
  }

  /** One turn of the loop, which stops at the end of the stream. */
  function NextListing(dir: Directory, count: nat, l: Listing): Listing {
    if l.done then l else Join(l, PageOf(dir, l.cookie, count))
  }

  /** The listing after at most `rpcs` calls. */
  function List(dir: Directory, count: nat, rpcs: nat): Listing {
    if rpcs == 0 then EMPTY_LISTING else NextListing(dir, count, List(dir, count, rpcs - 1))
  }

  predicate AllFit(dir: Directory, count: nat) { forall i :: 0 <= i < |dir| ==> dir[i].size <= count }

  /** The listing holds the directory up to its cookie, and all of it when it is done. */
  predicate IsPrefix(dir: Directory, l: Listing) {
    && l.cookie <= |dir| && l.items == dir[..l.cookie]
    && (l.done ==> l.items == dir)
  }

  lemma JoinPrefix(dir: Directory, l: Listing, count: nat, page: Page)
    requires IsPrefix(dir, l) && IsPage(dir, l.cookie, count, page)
    ensures IsPrefix(dir, Join(l, page)) && Join(l, page).cookie == l.cookie + |page.entries|
  {
    var n := |page.entries|;
    assert dir[..l.cookie] + ItemsOf(page.entries) == dir[..l.cookie + n];
    assert dir[..|dir|] == dir;
  }

  lemma PageProgress(dir: Directory, cookie: nat, count: nat, page: Page)
    requires AllFit(dir, count) && cookie <= |dir| && IsPage(dir, cookie, count, page)
    ensures page.eof || page.entries != []
  {
    assert cookie < |dir| ==> Total(dir, cookie, 1) == Total(dir, cookie, 0) + dir[cookie].size;
  }

  lemma PageStopsBefore(dir: Directory, cookie: nat, count: nat, page: Page, big: nat)
    requires PositiveSizes(dir) && cookie <= big < |dir| && dir[big].size > count
    requires IsPage(dir, cookie, count, page)
    ensures cookie + |page.entries| <= big && !page.eof
  {
    var n := |page.entries|;
    if cookie + n > big {
      TotalMonotonic(dir, cookie, big - cookie + 1, n);
    }
  }

  /** A turn keeps to the directory; it makes progress while entries fit, and never passes one that does not. */
  lemma NextListingFacts(dir: Directory, count: nat, l: Listing, big: nat)
    requires PositiveSizes(dir) && IsPrefix(dir, l)
    ensures var l' := NextListing(dir, count, l);
            && IsPrefix(dir, l')
            && (AllFit(dir, count) ==> l'.done || l'.cookie > l.cookie)
            && (big < |dir| && dir[big].size > count && l.cookie <= big && !l.done ==> l'.cookie <= big && !l'.done)
  {
    if !l.done {
      var page := PageOf(dir, l.cookie, count);
      PageOfIsPage(dir, l.cookie, count);
      JoinPrefix(dir, l, count, page);
      if AllFit(dir, count) { PageProgress(dir, l.cookie, count, page); }
      if big < |dir| && dir[big].size > count && l.cookie <= big { PageStopsBefore(dir, l.cookie, count, page, big); }
    }
  }

  lemma {:induction false} ListIsPrefix(dir: Directory, count: nat, rpcs: nat)
    requires PositiveSizes(dir)
    ensures IsPrefix(dir, List(dir, count, rpcs))
  {
    if rpcs > 0 {
      ListIsPrefix(dir, count, rpcs - 1);
      NextListingFacts(dir, count, List(dir, count, rpcs - 1), 0);
    }
  }

  /** Where the loop stands after the next call: further on, if entries fit. */
  lemma TurnProgress(dir: Directory, count: nat, rpcs: nat)
    requires PositiveSizes(dir) && AllFit(dir, count)
    ensures var l := List(dir, count, rpcs); var l' := List(dir, count, rpcs + 1);
            l'.done || l'.cookie >= l.cookie + 1
  {
    ListIsPrefix(dir, count, rpcs);
    NextListingFacts(dir, count, List(dir, count, rpcs), 0);
  }

  /** Where it stands after the next call: not past an entry that does not fit. */
  lemma TurnStuck(dir: Directory, count: nat, rpcs: nat, big: nat)
    requires PositiveSizes(dir) && big < |dir| && dir[big].size > count
    ensures var l := List(dir, count, rpcs); var l' := List(dir, count, rpcs + 1);
            l.cookie <= big && !l.done ==> l'.cookie <= big && !l'.done
  {
    ListIsPrefix(dir, count, rpcs);
    NextListingFacts(dir, count, List(dir, count, rpcs), big);
  }

  predicate FarEnough(l: Listing, rpcs: nat) { l.done || l.cookie >= rpcs }

  predicate Advances(l: Listing, l': Listing) { l'.done || (!l.done && l'.cookie >= l.cookie + 1) }

  lemma {:induction false} AdvancesAddUp(listings: nat -> Listing, rpcs: nat)
    requires forall i: nat :: i < rpcs ==> Advances(listings(i), listings(i + 1))
    ensures FarEnough(listings(rpcs), rpcs)
  {
    if rpcs > 0 { AdvancesAddUp(listings, rpcs - 1); }
  }

  lemma ListProgress(dir: Directory, count: nat, rpcs: nat)
    requires PositiveSizes(dir) && AllFit(dir, count)
    ensures FarEnough(List(dir, count, rpcs), rpcs)
  {
    var listings := (i: nat) => List(dir, count, i);
    forall i: nat | i < rpcs ensures Advances(listings(i), listings(i + 1)) {
      TurnProgress(dir, count, i);
      DoneStays(dir, count, i);
    }
    AdvancesAddUp(listings, rpcs);
  }

  lemma DoneStays(dir: Directory, count: nat, rpcs: nat)
    ensures List(dir, count, rpcs).done ==> List(dir, count, rpcs + 1).done
  {
  }

  /** An entry that does not fit is never passed. */
  lemma {:induction false} StuckBeforeLargeEntry(dir: Directory, count: nat, big: nat, rpcs: nat)
    requires PositiveSizes(dir) && big < |dir| && dir[big].size > count
    ensures var l := List(dir, count, rpcs); !l.done && l.cookie <= big
  {
    if rpcs > 0 {
      StuckBeforeLargeEntry(dir, count, big, rpcs - 1);
      TurnStuck(dir, count, rpcs - 1, big);
    }
  }

  lemma ListEnds(dir: Directory, count: nat)
    requires PositiveSizes(dir) && AllFit(dir, count)
    ensures List(dir, count, |dir| + 1).done
  {
    ListProgress(dir, count, |dir| + 1);
    ListIsPrefix(dir, count, |dir| + 1);
    assert FarEnough(List(dir, count, |dir| + 1), |dir| + 1);
  }

  /** The paging loop ends if and only if every entry fits into a page; then it has the whole directory. */
  lemma ListingEndsExactly(dir: Directory, count: nat)
    requires PositiveSizes(dir)
    ensures (exists rpcs: nat :: List(dir, count, rpcs).done) <==> AllFit(dir, count)
    ensures forall rpcs: nat :: List(dir, count, rpcs).done ==> List(dir, count, rpcs).items == dir
    ensures AllFit(dir, count) ==> List(dir, count, |dir| + 1).done
  {
    forall rpcs: nat ensures List(dir, count, rpcs).done ==> List(dir, count, rpcs).items == dir {
      ListIsPrefix(dir, count, rpcs);
    }
    if AllFit(dir, count) {
      ListEnds(dir, count);
    } else {
      var big :| 0 <= big < |dir| && dir[big].size > count;
      forall rpcs: nat ensures !List(dir, count, rpcs).done { StuckBeforeLargeEntry(dir, count, big, rpcs); }
    }
  }

  // ------------------------------------- the loop against the sessions, interleaved

  /** One call of the loop: everything the server did before it, when it came, and what failed. */
  datatype Turn = Turn(history: seq<Op>, now: int, faults: Faults)

  /** One turn of the loop, answered from the sessions; None when the call fails. */
  function NextServed(fs: map<nat, Directory>, client: Auth, inode: nat, count: nat, l: Listing,
                      t: Turn): Option<Listing> {
    if l.done then Some(l)
    else match Serve(fs, Run(fs, t.history), Request(client, inode, l.cookie, count, t.now, t.faults)).1
      case Failed(_) => None
      case Ok(page) => Some(Join(l, page))
  }

  function ListServed(fs: map<nat, Directory>, client: Auth, inode: nat, count: nat,
                      turns: seq<Turn>): Option<Listing> {
    if turns == [] then Some(EMPTY_LISTING)
    else match ListServed(fs, client, inode, count, turns[..|turns| - 1])
      case None => None
      case Some(l) => NextServed(fs, client, inode, count, l, turns[|turns| - 1])
  }

  lemma NextServedIsNextListing(fs: map<nat, Directory>, client: Auth, inode: nat, count: nat, l: Listing, t: Turn)
    requires forall i :: i in fs ==> PositiveSizes(fs[i])
    ensures var l' := NextServed(fs, client, inode, count, l, t);
            && (l'.Some? && !l.done ==> inode in fs)
            && (l'.Some? && inode in fs ==> l'.value == NextListing(fs[inode], count, l))
  {
    if !l.done {
      SessionsRefineStatelessPager(fs, t.history, Request(client, inode, l.cookie, count, t.now, t.faults));
    }
  }

  /** If a turn succeeds, so did those before it; and it goes from the same listing to the same. */
  predicate StepsAlike(l: Option<Listing>, l': Option<Listing>, a: Listing, a': Listing) {
    l'.Some? ==> l.Some? && (l.value == a ==> l'.value == a')
  }

  lemma {:induction false} StepsAddUp(served: nat -> Option<Listing>, alone: nat -> Listing, n: nat)
    requires served(0) == Some(alone(0))
    requires forall i: nat :: i < n ==> StepsAlike(served(i), served(i + 1), alone(i), alone(i + 1))
    ensures served(n).Some? ==> served(n).value == alone(n)
  {
    if n > 0 { StepsAddUp(served, alone, n - 1); }
  }

  lemma ServedStep(fs: map<nat, Directory>, client: Auth, inode: nat, count: nat, turns: seq<Turn>, i: nat)
    requires forall i :: i in fs ==> PositiveSizes(fs[i])
    requires inode in fs && i < |turns|
    ensures StepsAlike(ListServed(fs, client, inode, count, turns[..i]),
                       ListServed(fs, client, inode, count, turns[..i + 1]),
                       List(fs[inode], count, i), List(fs[inode], count, i + 1))
  {
    assert turns[..i + 1][..i] == turns[..i] && turns[..i + 1][i] == turns[i];
    var l := ListServed(fs, client, inode, count, turns[..i]);
    if l.Some? { NextServedIsNextListing(fs, client, inode, count, l.value, turns[i]); }
  }

  lemma {:induction false} NoDirectoryNoListing(fs: map<nat, Directory>, client: Auth, inode: nat, count: nat,
                                                turns: seq<Turn>)
    requires forall i :: i in fs ==> PositiveSizes(fs[i])
    requires inode !in fs && turns != []
    ensures ListServed(fs, client, inode, count, turns) == None
    decreases |turns|
  {
    var before := turns[..|turns| - 1];
    if before == [] {
      NextServedIsNextListing(fs, client, inode, count, EMPTY_LISTING, turns[0]);
    } else {
      NoDirectoryNoListing(fs, client, inode, count, before);
    }
  }

  /**
   Whatever other clients and the clean-up thread do between the calls, a loop
   whose calls succeed collects what it would collect alone.
   */
  lemma OthersDoNotDisturb(fs: map<nat, Directory>, client: Auth, inode: nat, count: nat, turns: seq<Turn>)
    requires forall i :: i in fs ==> PositiveSizes(fs[i])
    requires turns != []
    ensures var l := ListServed(fs, client, inode, count, turns);
            l.Some? ==> inode in fs && l.value == List(fs[inode], count, |turns|)
  {
    if inode in fs {
      var n := |turns|;
      var served := (i: nat) => ListServed(fs, client, inode, count, if i <= n then turns[..i] else turns);
      var alone := (i: nat) => List(fs[inode], count, i);
      forall i: nat | i < n ensures StepsAlike(served(i), served(i + 1), alone(i), alone(i + 1)) {
        ServedStep(fs, client, inode, count, turns, i);
      }
      StepsAddUp(served, alone, n);
      assert turns[..n] == turns;
    } else {
      NoDirectoryNoListing(fs, client, inode, count, turns);
    }
  }

  /** Appends the entries of a page and remembers the cookie of the last. */
  method AppendPage(l: Listing, page: Page) returns (l': Listing)
    ensures l' == Join(l, page)
  {
    var items, cookie, i := l.items, l.cookie, 0;
    while i < |page.entries|
      invariant 0 <= i <= |page.entries|
      invariant items == l.items + ItemsOf(page.entries[..i])
      invariant cookie == if i == 0 then l.cookie else page.entries[i - 1].cookie
    {
      items := items + [page.entries[i].item];
      cookie := page.entries[i].cookie;
      i := i + 1;
    }
    assert page.entries[..i] == page.entries;
    return Listing(items, cookie, page.eof);
  }

  /** The loop comes to call number `k`: the calls before it succeed and do not reach the end. */
  predicate ComesTo(dir: Directory, count: nat, replies: seq<bool>, k: nat) {
    k < |replies| && (forall i :: 0 <= i < k ==> replies[i]) && !List(dir, count, k).done
  }

  /** The listing of `rpcs` calls, after which the loop is done or there are no further replies. */
  predicate ListsAfter(dir: Directory, count: nat, replies: seq<bool>, l: Listing, rpcs: nat) {
    rpcs <= |replies| && l == List(dir, count, rpcs) && (l.done || rpcs == |replies|)
  }

  /** One call of the loop. */
  method ListNext(dir: Directory, count: nat, l: Listing, ghost k: nat) returns (l': Listing)
    requires l == List(dir, count, k) && !l.done
    ensures l' == List(dir, count, k + 1)
  {
    l' := AppendPage(l, PageOf(dir, l.cookie, count));
  }

  /** The loop itself, for a number of calls; `replies` says which of them succeed. */
  method ListDirectory(dir: Directory, count: nat, replies: seq<bool>) returns (listing: Option<Listing>)
    ensures listing.Some? ==> exists rpcs: nat :: ListsAfter(dir, count, replies, listing.value, rpcs)
    ensures listing.None? <==> exists k: nat :: ComesTo(dir, count, replies, k) && !replies[k]
  {
    var l, k: nat := EMPTY_LISTING, 0;
    while !l.done && k < |replies|
      invariant k <= |replies| && l == List(dir, count, k) && forall i :: 0 <= i < k ==> replies[i]
      decreases |replies| - k
    {
      if !replies[k] {
        assert ComesTo(dir, count, replies, k);
        return None;
      }
      l := ListNext(dir, count, l, k);
      k := k + 1;
    }
    ComesToNoFailure(dir, count, replies, k);
    assert ListsAfter(dir, count, replies, l, k);
    return Some(l);
  }

  lemma ComesToNoFailure(dir: Directory, count: nat, replies: seq<bool>, k: nat)
    requires k <= |replies| && (forall i :: 0 <= i < k ==> replies[i]) && (List(dir, count, k).done || k == |replies|)
    ensures forall j: nat :: ComesTo(dir, count, replies, j) ==> replies[j]
  {
    forall j: nat | ComesTo(dir, count, replies, j) ensures replies[j] {
      if j >= k { DoneForGood(dir, count, k, j); }
    }
  }

  lemma {:induction false} DoneForGood(dir: Directory, count: nat, k: nat, j: nat)
    requires k <= j && List(dir, count, k).done
    ensures List(dir, count, j).done
  {
    if k < j { DoneForGood(dir, count, k, j - 1); }
  }
}
