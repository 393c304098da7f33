/** Dentry reference counting behind open and close (vfs.c:57-156, syscalls.c:14-56). */
module Dentries {
  const U32: nat := 0x1_0000_0000

  const ENOENT: int := 2
  const EBADF: int := 9
  const ENOMEM: int := 12
  const ENODEV: int := 19

  class Dentry {
    const pathname: string
    var dref: int

    constructor (pathname: string)
      ensures this.pathname == pathname && dref == 0
    {
      this.pathname := pathname;
      dref := 0;
    }
  }

  /** An open file: its descriptor and the dentry it points at, fixed at the open. */
  datatype OpenFile = OpenFile(fd: nat, dentry: Dentry)

  /** What the rest of the kernel answers: is a mount found, which of the three allocations succeed (file object, path
      copy, dentry), and the results of the filesystem's operations. */
  datatype Env = Env(mounted: bool, fileMemory: bool, pathMemory: bool, dentryMemory: bool,
                     hasLookup: bool, lookup: bool, open: int)

  ghost predicate Listed(ds: seq<Dentry>, path: string) {
    exists i :: 0 <= i < |ds| && ds[i].pathname == path
  }

  /** vfs_open succeeds: a listed path needs no dentry and no work of the filesystem. */
  ghost predicate CanOpen(ds: seq<Dentry>, path: string, env: Env) {
    && env.mounted && env.pathMemory
    && (Listed(ds, path) || (env.dentryMemory && env.hasLookup && env.lookup && env.open >= 0))
  }

  /** The error vfs_open reports otherwise. */
  function OpenError(env: Env): int {
    if !env.mounted then -ENODEV
    else if !env.pathMemory || !env.dentryMemory then -ENOMEM
    else if !env.hasLookup then -ENODEV
    else if !env.lookup then -ENOENT
    else env.open
  }

  // ----- counting

  /** The number of open files that point at d. */
  ghost function Refs(files: seq<OpenFile>, d: Dentry): nat {
    if files == [] then 0 else (if files[0].dentry == d then 1 else 0) + Refs(files[1..], d)
  }

  lemma {:induction false} RefsSplit(a: seq<OpenFile>, b: seq<OpenFile>, d: Dentry)
    ensures Refs(a + b, d) == Refs(a, d) + Refs(b, d)
  {
    if a == [] {
      assert a + b == b;
    } else {
      RefsSplit(a[1..], b, d);
      assert (a + b)[1..] == a[1..] + b;
    }
  }

  lemma RefsAdd(files: seq<OpenFile>, f: OpenFile, d: Dentry)
    ensures Refs(files + [f], d) == Refs(files, d) + if f.dentry == d then 1 else 0
  {
    RefsSplit(files, [f], d);
    assert [f][1..] == [];
  }

  function Without(files: seq<OpenFile>, i: nat): seq<OpenFile>
    requires i < |files|
  {
    files[..i] + files[i + 1..]
  }

  lemma RefsWithout(files: seq<OpenFile>, i: nat, d: Dentry)
    requires i < |files|
    ensures Refs(files, d) == Refs(Without(files, i), d) + if files[i].dentry == d then 1 else 0
  {
    assert files == files[..i] + ([files[i]] + files[i + 1..]);
    RefsSplit(files[..i], [files[i]] + files[i + 1..], d);
    RefsSplit(files[..i], files[i + 1..], d);
    assert ([files[i]] + files[i + 1..])[1..] == files[i + 1..];
  }

  lemma {:induction false} NoRefs(files: seq<OpenFile>, d: Dentry)
    ensures Refs(files, d) == 0 <==> forall k :: 0 <= k < |files| ==> files[k].dentry != d
  {
    if files != [] {
      NoRefs(files[1..], d);
      assert forall k :: 0 < k < |files| ==> files[k] == files[1..][k - 1];
    }
  }

  // ----- the invariant

  ghost predicate Apart(ds: seq<Dentry>) {
    forall i, j :: 0 <= i < j < |ds| ==> ds[i] != ds[j] && ds[i].pathname != ds[j].pathname
  }

  /** As long as the 32-bit counter has not wrapped, descriptors are below it and distinct. */
  ghost predicate Numbered(files: seq<OpenFile>, opens: nat) {
    opens <= U32 ==> (forall k :: 0 <= k < |files| ==> files[k].fd < opens) && Distinct(files)
  }

  /** No two open files share a descriptor. */
  ghost predicate Distinct(files: seq<OpenFile>) {
    forall j, k :: 0 <= j < k < |files| ==> files[j].fd != files[k].fd
  }

  /** The descriptor belongs to an open file. */
  ghost predicate InUse(files: seq<OpenFile>, fd: nat) {
    exists k :: 0 <= k < |files| && files[k].fd == fd
  }

  ghost predicate NoDup(ds: seq<Dentry>) {
    forall i, j :: 0 <= i < j < |ds| ==> ds[i] != ds[j]
  }

  class Vfs {
    var dentries: seq<Dentry>       // dentry_list
    var files: seq<OpenFile>        // file_list
    var fdCount: nat                // fd_count
    ghost var opens: nat           // successful opens so far
    ghost var released: seq<Dentry> // release calls so far

    ghost predicate Counted()
      reads this, dentries
    {
      forall i :: 0 <= i < |dentries| ==> dentries[i].dref == Refs(files, dentries[i]) && dentries[i].dref > 0
    }

    ghost predicate Valid()
      reads this, dentries
    {
      && Apart(dentries) && Counted()
      && (forall k :: 0 <= k < |files| ==> files[k].dentry in dentries)
      && fdCount == opens % U32 && Numbered(files, opens)
      && NoDup(released) && forall d :: d in released ==> d !in dentries
    }

    constructor ()
      ensures Valid() && dentries == [] && files == [] && released == [] && opens == 0 && fdCount == 0
    {
      dentries, files, fdCount, opens, released := [], [], 0, 0, [];
    }
  }

  /** The search by pathname. */
  method FindPath(v: Vfs, path: string) returns (i: int)
    ensures i == -1 ==> forall j :: 0 <= j < |v.dentries| ==> v.dentries[j].pathname != path
    ensures i != -1 ==> 0 <= i < |v.dentries| && v.dentries[i].pathname == path
  {
    i := 0;
    while i < |v.dentries|
      invariant 0 <= i <= |v.dentries| && forall j :: 0 <= j < i ==> v.dentries[j].pathname != path
    {
      if v.dentries[i].pathname == path {
        return;
      }
      i := i + 1;
    }
    return -1;
  }

  /** vfs_open: the dentry for a path, an existing one with one more reference or a new one with one. freed tells
      whether the file object was freed here, leaked whether the copy of the path was allocated and then neither kept
      in a dentry nor freed. */
  method VfsOpen(v: Vfs, path: string, env: Env) returns (ret: int, d: Dentry?, freed: bool, leaked: bool)
    requires v.Valid()
    modifies v`dentries, v.dentries
    ensures ret == if CanOpen(old(v.dentries), path, env) then 0 else OpenError(env)
    ensures ret < 0 <==> !CanOpen(old(v.dentries), path, env)
    ensures ret < 0 ==> v.dentries == old(v.dentries) && forall x :: x in v.dentries ==> x.dref == old(x.dref)
    ensures ret == 0 ==> d != null && d.pathname == path && d in v.dentries && Apart(v.dentries) && CountedWith(v, d)
    ensures ret == 0 && d in old(v.dentries) ==> v.dentries == old(v.dentries) && d.dref == old(d.dref) + 1
    ensures ret == 0 && d !in old(v.dentries) ==> fresh(d) && v.dentries == old(v.dentries) + [d] && d.dref == 1
    ensures ret == 0 ==> forall x :: x in old(v.dentries) && x != d ==> x.dref == old(x.dref)
    ensures freed <==> env.mounted && !env.pathMemory
    ensures leaked <==> ret < 0 && env.mounted && env.pathMemory && !(env.dentryMemory && env.hasLookup && env.lookup)
  {
    d, freed, leaked := null, false, false;
    if !env.mounted {
      return -ENODEV, null, false, false;
    }
    if !env.pathMemory {
      return -ENOMEM, null, true, false;
    }
    var i := FindPath(v, path);
    if i != -1 {
      d := v.dentries[i];
      d.dref := d.dref + 1;
      return 0, d, false, false;
    }
    if !env.dentryMemory {
      return -ENOMEM, null, false, true;
    }
    d := new Dentry(path);
    if !env.hasLookup {
      return -ENODEV, d, false, true;
    }
    if !env.lookup {
      return -ENOENT, d, false, true;
    }
    if env.open < 0 {
      return env.open, d, false, false;
    }
    NoRefs(v.files, d);
    d.dref := 1;
    v.dentries := v.dentries + [d];
    ret := 0;
  }

  /** The result of sys_open: the descriptor as a signed 32-bit number. */
  function Signed(fd: nat): (r: int)
    ensures fd < U32 ==> -0x8000_0000 <= r < 0x8000_0000 && r % U32 == fd
  {
    if fd < 0x8000_0000 then fd else fd - U32
  }

  /** Every listed dentry counts the open files that point at it, and one more if it is d. */
  ghost predicate CountedWith(v: Vfs, d: Dentry)
    reads v, v.dentries
  {
    forall i :: 0 <= i < |v.dentries| ==>
        v.dentries[i].dref == Refs(v.files, v.dentries[i]) + (if v.dentries[i] == d then 1 else 0)
        && v.dentries[i].dref > 0
  }

  /** The end of sys_open: the file gets the next descriptor and joins the list. */
  method AddFile(v: Vfs, d: Dentry) returns (fd: nat)
    requires Apart(v.dentries) && CountedWith(v, d) && d in v.dentries
    requires forall k :: 0 <= k < |v.files| ==> v.files[k].dentry in v.dentries
    requires v.fdCount == v.opens % U32 && Numbered(v.files, v.opens)
    modifies v`files, v`fdCount, v`opens
    ensures v.Counted() && fd == old(v.fdCount) && v.files == old(v.files) + [OpenFile(fd, d)]
      && v.opens == old(v.opens) + 1
    ensures (forall k :: 0 <= k < |v.files| ==> v.files[k].dentry in v.dentries)
    ensures v.fdCount == v.opens % U32 && Numbered(v.files, v.opens)
  {
    hide Numbered, Apart, Refs;
    fd := v.fdCount;
    var f := OpenFile(fd, d);
    ghost var files0 := v.files;
    NumberedNext(files0, v.opens, f);
    v.fdCount := (v.fdCount + 1) % U32;
    v.files := v.files + [f];
    v.opens := v.opens + 1;
    forall i | 0 <= i < |v.dentries|
      ensures v.dentries[i].dref == Refs(v.files, v.dentries[i]) && v.dentries[i].dref > 0
    {
      RefsAdd(files0, f, v.dentries[i]);
    }
  }

  /** sys_open: a new file at the end of the list with the next descriptor, or nothing changes. Distinct descriptors
      stay distinct exactly when the counter's value is not still in use. A failed call frees the file object once,
      and twice exactly when the copy of the path cannot be allocated. */
  method SysOpen(v: Vfs, path: string, env: Env) returns (ret: int, frees: nat, ghost d: Dentry?)
    requires v.Valid()
    modifies v`dentries, v`files, v`fdCount, v`opens, v.dentries
    ensures v.Valid()
    ensures d != null <==> env.fileMemory && CanOpen(old(v.dentries), path, env)
    ensures d == null ==> ret == if env.fileMemory then OpenError(env) else -ENOMEM
    ensures d == null ==> v.files == old(v.files) && v.dentries == old(v.dentries) && v.opens == old(v.opens)
    ensures d != null ==> ret == Signed(old(v.fdCount)) && d in v.dentries && d.pathname == path
    ensures d != null ==> v.files == old(v.files) + [OpenFile(old(v.fdCount), d)] && v.opens == old(v.opens) + 1
    ensures d != null ==> v.dentries == old(v.dentries) || (v.dentries == old(v.dentries) + [d] && fresh(d))
    ensures d != null && Distinct(old(v.files)) ==> (Distinct(v.files) <==> !InUse(old(v.files), old(v.fdCount)))
    ensures frees == if d != null || !env.fileMemory then 0 else if env.mounted && !env.pathMemory then 2 else 1
  {
    hide Numbered, Apart, NoDup, Refs, Signed, Distinct, InUse, Listed;
    d, frees := null, 0;
    if !env.fileMemory {
      return -ENOMEM, 0, null;
    }
    ghost var files0 := v.files;
    var e, freed, leaked;
    ret, e, freed, leaked := VfsOpen(v, path, env);
    if ret < 0 {
      frees := if freed then 2 else 1;
      return;
    }
    d := e;
    var fd := AddFile(v, e);
    ret := Signed(fd);
    if Distinct(files0) {
      DistinctNext(files0, OpenFile(fd, e));
    }
  }

  /** One more descriptor keeps them distinct exactly when it is new. */
  lemma DistinctNext(files: seq<OpenFile>, f: OpenFile)
    requires Distinct(files)
    ensures Distinct(files + [f]) <==> !InUse(files, f.fd)
  {
    if InUse(files, f.fd) {
      var k :| 0 <= k < |files| && files[k].fd == f.fd;
      assert (files + [f])[k].fd == (files + [f])[|files|].fd;
    }
  }

  lemma NumberedNext(files: seq<OpenFile>, n: nat, f: OpenFile)
    requires Numbered(files, n) && f.fd == n % U32
    ensures Numbered(files + [f], n + 1)
  {
  }

  /** vfs_close: one reference less; at the last one the filesystem's release runs and the dentry leaves the list. */
  method VfsClose(v: Vfs, d: Dentry, mounted: bool) returns (ret: int)
    requires Apart(v.dentries) && d in v.dentries && NoDup(v.released)
      && (forall x :: x in v.released ==> x !in v.dentries)
    modifies v`dentries, v`released, d
    ensures ret == if mounted then 0 else -ENODEV
    ensures !mounted ==> v.dentries == old(v.dentries) && d.dref == old(d.dref) && v.released == old(v.released)
    ensures mounted ==> d.dref == old(d.dref) - 1
    ensures mounted && d.dref != 0 ==> v.dentries == old(v.dentries) && v.released == old(v.released)
    ensures mounted && d.dref == 0 ==> v.released == old(v.released) + [d] && d !in v.dentries
    ensures forall x :: x != d ==> (x in v.dentries <==> x in old(v.dentries))
    ensures Apart(v.dentries) && NoDup(v.released) && forall x :: x in v.released ==> x !in v.dentries
  {
    if !mounted {
      return -ENODEV;
    }
    var i := FindPath(v, d.pathname);
    ghost var k :| 0 <= k < |v.dentries| && v.dentries[k] == d;
    assert i == k;
    d.dref := d.dref - 1;
    if d.dref == 0 {
      ghost var before := v.dentries;
      v.released := v.released + [d];
      v.dentries := v.dentries[..i] + v.dentries[i + 1..];
      forall x | x != d
        ensures x in v.dentries <==> x in before
      {
        DropKeeps(before, i, x);
      }
      DropApart(before, i);
    }
    ret := 0;
  }

  lemma DropKeeps(ds: seq<Dentry>, i: nat, x: Dentry)
    requires i < |ds| && x != ds[i]
    ensures x in ds[..i] + ds[i + 1..] <==> x in ds
  {
    var r := ds[..i] + ds[i + 1..];
    if x in ds {
      var k :| 0 <= k < |ds| && ds[k] == x;
      assert r[if k < i then k else k - 1] == x;
    }
  }

  lemma DropApart(ds: seq<Dentry>, i: nat)
    requires Apart(ds) && i < |ds|
    ensures Apart(ds[..i] + ds[i + 1..]) && ds[i] !in ds[..i] + ds[i + 1..]
  {
    var r := ds[..i] + ds[i + 1..];
    assert forall k :: 0 <= k < |r| ==> r[k] == ds[if k < i then k else k + 1];
  }

  /** The search by descriptor. */
  method FindFd(v: Vfs, fd: nat) returns (i: int)
    ensures i == -1 ==> forall j :: 0 <= j < |v.files| ==> v.files[j].fd != fd
    ensures i != -1 ==> 0 <= i < |v.files| && v.files[i].fd == fd && forall j :: 0 <= j < i ==> v.files[j].fd != fd
  {
    i := 0;
    while i < |v.files|
      invariant 0 <= i <= |v.files| && forall j :: 0 <= j < i ==> v.files[j].fd != fd
    {
      if v.files[i].fd == fd {
        return;
      }
      i := i + 1;
    }
    return -1;
  }

  /** A signed descriptor read as unsigned. */
  function Unsigned(fd: int): nat { fd % U32 }

  /** sys_close: the file leaves the list; release runs exactly when it was the last one at its dentry. */
  method SysClose(v: Vfs, fd: int, mounted: bool) returns (ret: int, ghost i: nat)
    requires v.Valid()
    modifies v`dentries, v`released, v`files, v.dentries
    ensures v.Valid() && v.opens == old(v.opens)
    ensures ret == if !InUse(old(v.files), Unsigned(fd)) then -EBADF else if mounted then 0 else -ENODEV
    ensures ret != 0 ==> v.files == old(v.files) && v.dentries == old(v.dentries) && v.released == old(v.released)
    ensures forall x :: x in v.dentries ==> x in old(v.dentries)
    ensures ret == 0 ==> i < |old(v.files)| && old(v.files)[i].fd == Unsigned(fd) && v.files == Without(old(v.files), i)
    ensures ret == 0 ==> forall j :: 0 <= j < i ==> old(v.files)[j].fd != Unsigned(fd)
    ensures ret == 0 && Distinct(old(v.files)) ==> Distinct(v.files)
    ensures ret == 0 ==> var d := old(v.files)[i].dentry;
              if exists k :: 0 <= k < |v.files| && v.files[k].dentry == d
              then v.released == old(v.released) && d in v.dentries
              else v.released == old(v.released) + [d] && d !in v.dentries
  {
    hide Numbered, Apart, NoDup, Refs, Distinct;
    i := 0;
    var k := FindFd(v, Unsigned(fd));
    if k == -1 {
      return -EBADF, i;
    }
    i := k;
    var d := v.files[k].dentry;
    ghost var files0, ds0 := v.files, v.dentries;
    ret := VfsClose(v, d, mounted);
    if ret < 0 {
      return;
    }
    RefsWithout(files0, k, d);
    NoRefs(Without(files0, k), d);
    forall j | 0 <= j < |v.dentries|
      ensures v.dentries[j].dref == Refs(Without(files0, k), v.dentries[j]) && v.dentries[j].dref > 0
    {
      RefsWithout(files0, k, v.dentries[j]);
      assert v.dentries[j] in ds0;
    }
    forall j | 0 <= j < |v.files| && j != k
      ensures v.files[j].dentry in v.dentries
    {
      assert v.files[j] == Without(files0, k)[if j < k then j else j - 1];
    }
    DropFile(v, k);
    ret := 0;
  }

  /** The end of sys_close: the file leaves the list. */
  method DropFile(v: Vfs, k: nat)
    requires k < |v.files| && Numbered(v.files, v.opens)
    requires forall j :: 0 <= j < |v.files| && j != k ==> v.files[j].dentry in v.dentries
    modifies v`files
    ensures v.files == Without(old(v.files), k) && Numbered(v.files, v.opens)
    ensures Distinct(old(v.files)) ==> Distinct(v.files)
    ensures forall j :: 0 <= j < |v.files| ==> v.files[j].dentry in v.dentries
  {
    NumberedWithout(v.files, k, v.opens);
    ghost var before := v.files;
    v.files := v.files[..k] + v.files[k + 1..];
    assert forall j :: 0 <= j < |v.files| ==> v.files[j] == before[if j < k then j else j + 1];
  }

  lemma NumberedWithout(files: seq<OpenFile>, i: nat, n: nat)
    requires Numbered(files, n) && i < |files|
    ensures Numbered(Without(files, i), n)
  {
    var r := Without(files, i);
    assert forall k :: 0 <= k < |r| ==> r[k] == files[if k < i then k else k + 1];
  }

  /** The unsigned reading takes the descriptor back. */
  lemma SignedBack(fd: nat)
    requires fd < U32
    ensures Unsigned(Signed(fd)) == fd
  {
  }

  /** Everything an open needs is there. */
  predicate Plenty(env: Env) {
    && env.fileMemory && env.mounted && env.pathMemory && env.dentryMemory
    && env.hasLookup && env.lookup && env.open >= 0
  }

  /** Beside one open file another one is opened and closed: only the counter moves on. */
  method OpenClose(v: Vfs, q: string, env: Env, ghost f: OpenFile)
    requires v.Valid() && v.files == [f] && f.fd != v.fdCount && Plenty(env)
    modifies v`dentries, v`files, v`fdCount, v`opens, v`released, v.dentries
    ensures v.Valid() && v.files == [f] && v.opens == old(v.opens) + 1
    ensures forall x :: x in v.dentries ==> x in old(v.dentries) || fresh(x)
  {
    hide Numbered, Apart, NoDup, Refs, Distinct, Listed, Signed, Unsigned, InUse;
    SignedBack(v.fdCount);
    var fd, frees, closed;
    ghost var d, i;
    fd, frees, d := SysOpen(v, q, env);
    ghost var two := v.files;
    assert two == [f, OpenFile(Unsigned(fd), d)];
    InUseAt(two, 1);
    closed, i := SysClose(v, fd, true);
    assert Without(two, 1) == [f];
  }

  lemma InUseAt(files: seq<OpenFile>, k: nat)
    requires k < |files|
    ensures InUse(files, files[k].fd)
  {
  }

  /** The failing run: one file stays open while a second one is opened and closed until the counter is back at 0. The
      next open gives out the descriptor 0 again, and closing it closes the file that was opened first. */
  method WrapRun(p: string, q: string, env: Env) returns (v: Vfs, fd: int, closed: int, ghost both: seq<OpenFile>)
    requires Plenty(env)
    ensures fd == 0 && closed == 0 && v.Valid()
    ensures |both| == 2 && both[0].fd == 0 && both[1].fd == 0 && !Distinct(both)
    ensures both[0].dentry.pathname == p && both[1].dentry.pathname == q && v.files == [both[1]]
  {
    hide Numbered, Apart, NoDup, Refs, Distinct, Listed, InUse;
    v := new Vfs();
    var frees;
    ghost var d;
    fd, frees, d := SysOpen(v, p, env);
    ghost var f := OpenFile(0, d);
    while v.fdCount != 0
      invariant v.Valid() && fresh(v) && v.files == [f] && 1 <= v.opens <= U32
      invariant forall k :: 0 <= k < |v.dentries| ==> fresh(v.dentries[k])
      decreases U32 - v.opens
    {
      ghost var before := v.dentries;
      OpenClose(v, q, env, f);
      forall k | 0 <= k < |v.dentries|
        ensures fresh(v.dentries[k])
      {
        assert v.dentries[k] in v.dentries;
      }
    }
    fd, closed, both := OpenTwice(v, q, env, f);
  }

  /** With the counter at the descriptor of the only open file, the next open gives it out again. */
  method OpenTwice(v: Vfs, q: string, env: Env, ghost f: OpenFile)
    returns (fd: int, closed: int, ghost both: seq<OpenFile>)
    requires v.Valid() && v.files == [f] && f.fd == v.fdCount == 0 && Plenty(env)
    modifies v`dentries, v`files, v`fdCount, v`opens, v`released, v.dentries
    ensures fd == 0 && closed == 0 && v.Valid() && |both| == 2 && both[0] == f && both[1].fd == 0 && !Distinct(both)
    ensures both[1].dentry.pathname == q && v.files == [both[1]]
  {
    hide Numbered, Apart, NoDup, Refs, Distinct, Listed, InUse;
    DistinctOne(f);
    InUseAt(v.files, 0);
    var frees;
    ghost var e, i;
    fd, frees, e := SysOpen(v, q, env);
    both := v.files;
    InUseAt(both, 0);
    closed, i := SysClose(v, fd, true);
    assert both == [f, OpenFile(0, e)] && Without(both, 0) == [both[1]];
  }

  lemma DistinctOne(f: OpenFile)
    ensures Distinct([f])
  {
  }

  /** A call a program can make. */
  datatype Call = Open(path: string, env: Env) | Close(fd: int, mounted: bool)

  /** Over every sequence of calls the counts stay exact and no dentry is released twice. */
  method Run(v: Vfs, calls: seq<Call>)
    requires v.Valid()
    modifies v, v.dentries
    ensures v.Valid() && old(v.released) <= v.released
  {
    hide Numbered, Apart, NoDup, Refs;
    ghost var ds := v.dentries;
    var i := 0;
    while i < |calls|
      invariant 0 <= i <= |calls| && v.Valid() && old(v.released) <= v.released
      invariant forall k :: 0 <= k < |v.dentries| ==> v.dentries[k] in ds || fresh(v.dentries[k])
    {
      ghost var before := v.dentries;
      match calls[i] {
        case Open(path, env) =>
          var ret, frees;
          ghost var d;
          ret, frees, d := SysOpen(v, path, env);
        case Close(fd, mounted) =>
          var ret;
          ghost var k;
          ret, k := SysClose(v, fd, mounted);
      }
      forall j | 0 <= j < |v.dentries|
        ensures v.dentries[j] in before || fresh(v.dentries[j])
      {
        assert v.dentries[j] in v.dentries;
      }
      i := i + 1;
    }
  }
}
