/** Path resolution and directories of `oslabs/kernel/src/vfs.c`: components, mounts, lookup, create,
mkdir, link and unlink.

Inodes are numbered and never freed.  A path is what the C string holds before its terminator.
 */
module Paths {
  import opened Common

  const NAMEMAX: nat := 27      // NAMELEN - 1
  const MAXDIRENT: nat := 32

  datatype Kind = Dir | File | Dev | Proc

  datatype Ent = Ent(name: string, ip: nat)

  datatype Inode = Inode(kind: Kind, ents: seq<Ent>, nlink: int)

  datatype Mount = Mount(path: string, root: nat)

  datatype Fs = Fs(inodes: seq<Inode>, mounts: seq<Mount>)

  // ------------------------------------------------------------------ components

  function SkipSlash(p: string): (q: string)
    ensures |q| <= |p| && (q != [] ==> q[0] != '/')
  {
    if p != [] && p[0] == '/' then SkipSlash(p[1..]) else p
  }

  /** The length of the component at the start of `p`: up to a slash, the end, or 27 characters. */
  function CompLen(p: string, k: nat): (n: nat)
    requires k <= NAMEMAX && k <= |p|
    ensures k <= n <= |p| && n <= NAMEMAX
    ensures forall i :: k <= i < n ==> p[i] != '/'
    ensures n == |p| || n == NAMEMAX || p[n] == '/'
    decreases |p| - k
  {
    if k < |p| && k < NAMEMAX && p[k] != '/' then CompLen(p, k + 1) else k
  }

  /** The components of a path.  A component longer than 27 characters counts as several. */
  function Comps(p: string): seq<string>
    decreases |p|
  {
    var q := SkipSlash(p);
    if q == [] then [] else
      var n := CompLen(q, 0);
      [q[..n]] + Comps(q[n..])
  }

  // ------------------------------------------------------------------ lookup

  /** The first entry of that name. */
  function First(ents: seq<Ent>, name: string): Option<nat> {
    if ents == [] then None
    else if ents[0].name == name then Some(ents[0].ip)
    else First(ents[1..], name)
  }

  /** `dir_lookup`. */
  function Lookup(fs: Fs, d: nat, name: string): Option<nat> {
    if d < |fs.inodes| && fs.inodes[d].kind == Dir then First(fs.inodes[d].ents, name) else None
  }

  /** Following components from inode `ip`. */
  function Walk(fs: Fs, ip: nat, comps: seq<string>): Option<nat>
    decreases |comps|
  {
    if comps == [] then Some(ip)
    else match Lookup(fs, ip, comps[0])
      case Some(next) => Walk(fs, next, comps[1..])
      case None => None
  }

  // ------------------------------------------------------------------ mounts

  /** `path` is the mount point or below it. */
  predicate Matches(path: string, mount: string) {
    mount <= path && (|path| == |mount| || path[|mount|] == '/')
  }

  /** The best mount among the first `n`: the root, or a longer matching mount point. */
  function Best(mounts: seq<Mount>, path: string, n: nat): (b: nat)
    requires 1 <= n <= |mounts|
    ensures b < n
  {
    if n == 1 then 0
    else
      var b := Best(mounts, path, n - 1);
      var len := if b == 0 then 1 else |mounts[b].path|;
      if Matches(path, mounts[n - 1].path) && |mounts[n - 1].path| > len then n - 1 else b
  }

  /** The length of the mount point. */
  function BestLen(mounts: seq<Mount>, path: string): nat
    requires mounts != []
  {
    var b := Best(mounts, path, |mounts|);
    if b == 0 then 1 else |mounts[b].path|
  }

  /** The chosen mount is the longest that matches. */
  lemma {:induction false} BestIsLongest(mounts: seq<Mount>, path: string, n: nat)
    requires 1 <= n <= |mounts|
    ensures var b := Best(mounts, path, n);
            && (b > 0 ==> Matches(path, mounts[b].path) && |mounts[b].path| > 1)
            && (forall i :: 1 <= i < n && Matches(path, mounts[i].path) ==>
                  |mounts[i].path| <= if b == 0 then 1 else |mounts[b].path|)
  {
    if n > 1 {
      BestIsLongest(mounts, path, n - 1);
    }
  }

  ghost predicate FsOk(fs: Fs) {
    && fs.mounts != []
    && (forall i :: 0 <= i < |fs.mounts| ==> fs.mounts[i].root < |fs.inodes|)
    && (forall d, i :: 0 <= d < |fs.inodes| && 0 <= i < |fs.inodes[d].ents| ==> fs.inodes[d].ents[i].ip < |fs.inodes|)
  }

  ghost predicate IsPath(path: string) {
    path != [] && path[0] == '/'
  }

  lemma BestLenFits(fs: Fs, path: string)
    requires FsOk(fs) && IsPath(path)
    ensures BestLen(fs.mounts, path) <= |path|
  {
    BestIsLongest(fs.mounts, path, |fs.mounts|);
  }

  /** Where resolution starts, and the components it follows. */
  ghost function Root(fs: Fs, path: string): nat
    requires FsOk(fs)
  {
    fs.mounts[Best(fs.mounts, path, |fs.mounts|)].root
  }

  ghost function Rest(fs: Fs, path: string): seq<string>
    requires FsOk(fs) && IsPath(path)
  {
    BestLenFits(fs, path);
    Comps(path[BestLen(fs.mounts, path)..])
  }

  /** The inode a path names. */
  ghost function Namei(fs: Fs, path: string): Option<nat>
    requires FsOk(fs) && IsPath(path)
  {
    Walk(fs, Root(fs, path), Rest(fs, path))
  }

  datatype Parent = Parent(dir: nat, name: string)

  /** The inode that holds, or would hold, the last component, and that component. */
  ghost function NameiParent(fs: Fs, path: string): Option<Parent>
    requires FsOk(fs) && IsPath(path)
  {
    var comps := Rest(fs, path);
    if comps == [] then None
    else match Walk(fs, Root(fs, path), comps[..|comps| - 1])
      case Some(d) => Some(Parent(d, comps[|comps| - 1]))
      case None => None
  }

  // ------------------------------------------------------------------ what paths mean

  /** A name that one component can hold. */
  ghost predicate IsName(name: string) {
    1 <= |name| <= NAMEMAX && '/' !in name
  }

  /** Names separated by slashes. */
  function Join(names: seq<string>): string {
    if names == [] then "" else "/" + names[0] + Join(names[1..])
  }

  lemma {:induction false} LongComp(p: string, n: nat, k: nat)
    requires k <= n <= |p| && n <= NAMEMAX && (forall i :: 0 <= i < n ==> p[i] != '/')
    requires n == |p| || n == NAMEMAX || p[n] == '/'
    ensures CompLen(p, k) == n
    decreases n - k
  {
    if k < n {
      LongComp(p, n, k + 1);
    }
  }

  /** A name before a slash, or at the end, is a component. */
  lemma CompsStep(name: string, rest: string)
    requires IsName(name) && (rest == [] || rest[0] == '/')
    ensures Comps(name + rest) == [name] + Comps(rest)
  {
    var p := name + rest;
    assert forall i :: 0 <= i < |name| ==> p[i] == name[i];
    LongComp(p, |name|, 0);
    assert p[..|name|] == name && p[|name|..] == rest;
  }

  /** A longer one is cut after 27 characters, and what follows counts as the next. */
  lemma CompsCut(p: string)
    requires |p| >= NAMEMAX && forall i :: 0 <= i < NAMEMAX ==> p[i] != '/'
    ensures Comps(p) == [p[..NAMEMAX]] + Comps(p[NAMEMAX..])
  {
    LongComp(p, NAMEMAX, 0);
  }

  /** Slashes in front do not matter. */
  lemma CompsSlash(p: string)
    ensures Comps("/" + p) == Comps(p)
  {
    assert ("/" + p)[1..] == p;
    assert SkipSlash("/" + p) == SkipSlash(p);
  }

  /** Splitting a path undoes joining its names. */
  lemma {:induction false} CompsJoin(names: seq<string>)
    requires forall i :: 0 <= i < |names| ==> IsName(names[i])
    ensures Comps(Join(names)) == names
  {
    if names != [] {
      CompsJoin(names[1..]);
      CompsSlash(names[0] + Join(names[1..]));
      CompsStep(names[0], Join(names[1..]));
      assert "/" + names[0] + Join(names[1..]) == "/" + (names[0] + Join(names[1..]));
    }
  }

  /** `b` is the mount of `path`: the longest that matches, and of several equal ones the first. */
  ghost predicate IsMountOf(mounts: seq<Mount>, path: string, b: nat) {
    && 1 <= b < |mounts| && Matches(path, mounts[b].path) && |mounts[b].path| > 1
    && forall i :: 1 <= i < |mounts| && Matches(path, mounts[i].path) ==>
         |mounts[i].path| < |mounts[b].path| || (|mounts[i].path| == |mounts[b].path| && b <= i)
  }

  /** Only the root mount is left. */
  ghost predicate IsOnRoot(mounts: seq<Mount>, path: string) {
    mounts != [] && forall i :: 1 <= i < |mounts| && Matches(path, mounts[i].path) ==> |mounts[i].path| <= 1
  }

  lemma {:induction false} BestIs(mounts: seq<Mount>, path: string, b: nat, n: nat)
    requires IsMountOf(mounts, path, b) && 1 <= n <= |mounts|
    ensures b < n ==> Best(mounts, path, n) == b
    ensures n <= b ==> Best(mounts, path, n) == 0 || |mounts[Best(mounts, path, n)].path| < |mounts[b].path|
  {
    BestIsLongest(mounts, path, n);
    if n > 1 {
      BestIs(mounts, path, b, n - 1);
      BestIsLongest(mounts, path, n - 1);
    }
  }

  lemma RootIsBest(mounts: seq<Mount>, path: string)
    requires IsOnRoot(mounts, path)
    ensures Best(mounts, path, |mounts|) == 0
  {
    BestIsLongest(mounts, path, |mounts|);
  }

  /** Below a mount point a path means what its rest means from the root of that mount. */
  lemma MountedPath(fs: Fs, b: nat, q: string)
    requires FsOk(fs) && b < |fs.mounts| && IsPath(fs.mounts[b].path) && (q == [] || q[0] == '/')
    requires IsMountOf(fs.mounts, fs.mounts[b].path + q, b)
    ensures Namei(fs, fs.mounts[b].path + q) == Walk(fs, fs.mounts[b].root, Comps(q))
  {
    var path := fs.mounts[b].path + q;
    BestIs(fs.mounts, path, b, |fs.mounts|);
    assert path[|fs.mounts[b].path|..] == q;
  }

  /** A path on no other mount is followed from the root. */
  lemma RootPath(fs: Fs, q: string)
    requires FsOk(fs) && IsPath("/" + q) && IsOnRoot(fs.mounts, "/" + q)
    ensures Namei(fs, "/" + q) == Walk(fs, fs.mounts[0].root, Comps(q))
  {
    RootIsBest(fs.mounts, "/" + q);
    assert ("/" + q)[1..] == q;
  }

  // ------------------------------------------------------------------ resolution and parents

  lemma {:induction false} WalkConcat(fs: Fs, ip: nat, a: seq<string>, b: seq<string>)
    ensures Walk(fs, ip, a + b) == match Walk(fs, ip, a) case Some(x) => Walk(fs, x, b) case None => None
    decreases |a|
  {
    if a == [] {
      assert a + b == b;
    } else {
      assert (a + b)[1..] == a[1..] + b;
      match Lookup(fs, ip, a[0])
      case Some(next) => WalkConcat(fs, next, a[1..], b);
      case None =>
    }
  }

  /** A path names what its parent directory holds under its last component. */
  lemma NameiOfParent(fs: Fs, path: string)
    requires FsOk(fs) && IsPath(path) && NameiParent(fs, path).Some?
    ensures var p := NameiParent(fs, path).value; Namei(fs, path) == Lookup(fs, p.dir, p.name)
  {
    var comps := Rest(fs, path);
    var n := |comps| - 1;
    assert comps == comps[..n] + [comps[n]];
    WalkConcat(fs, Root(fs, path), comps[..n], [comps[n]]);
  }

  // ------------------------------------------------------------------ adding an entry

  /** `dir_add` of an existing inode. */
  function AddEntry(fs: Fs, d: nat, name: string, ip: nat): Fs
    requires d < |fs.inodes|
  {
    fs.(inodes := fs.inodes[d := fs.inodes[d].(ents := fs.inodes[d].ents + [Ent(name, ip)])])
  }

  /** `ialloc` and `dir_add`: a new inode in directory `d`. */
  function Create(fs: Fs, d: nat, name: string, kind: Kind): Fs
    requires d < |fs.inodes|
  {
    AddEntry(fs.(inodes := fs.inodes + [Inode(kind, [], 1)]), d, name, |fs.inodes|)
  }

  lemma {:induction false} FirstAppend(ents: seq<Ent>, e: Ent, name: string)
    ensures First(ents + [e], name) == if First(ents, name).Some? then First(ents, name) else if e.name == name then Some(e.ip) else None
  {
    if ents == [] {
      assert ents + [e] == [e];
    } else {
      assert (ents + [e])[1..] == ents[1..] + [e];
      FirstAppend(ents[1..], e, name);
    }
  }

  lemma AddedLookup(fs: Fs, d: nat, name: string, ip: nat, x: nat, n: string)
    requires d < |fs.inodes|
    ensures Lookup(AddEntry(fs, d, name, ip), x, n) ==
              if Lookup(fs, x, n).Some? then Lookup(fs, x, n)
              else if x == d && n == name && fs.inodes[d].kind == Dir then Some(ip) else None
  {
    FirstAppend(fs.inodes[d].ents, Ent(name, ip), n);
  }

  /** A file system in which every lookup that succeeded still gives the same. */
  ghost predicate Keeps(fs: Fs, fs': Fs) {
    && fs'.mounts == fs.mounts
    && forall x, n :: Lookup(fs, x, n).Some? ==> Lookup(fs', x, n) == Lookup(fs, x, n)
  }

  lemma {:induction false} WalkKeeps(fs: Fs, fs': Fs, ip: nat, comps: seq<string>)
    requires Keeps(fs, fs') && Walk(fs, ip, comps).Some?
    ensures Walk(fs', ip, comps) == Walk(fs, ip, comps)
    decreases |comps|
  {
    if comps != [] {
      assert Lookup(fs, ip, comps[0]).Some?;
      WalkKeeps(fs, fs', Lookup(fs, ip, comps[0]).value, comps[1..]);
    }
  }

  /** No path that already resolved changes its meaning. */
  lemma NameiKeeps(fs: Fs, fs': Fs, path: string)
    requires FsOk(fs) && FsOk(fs') && Keeps(fs, fs') && IsPath(path) && Namei(fs, path).Some?
    ensures Namei(fs', path) == Namei(fs, path)
  {
    WalkKeeps(fs, fs', Root(fs, path), Rest(fs, path));
  }

  lemma AddKeeps(fs: Fs, d: nat, name: string, ip: nat)
    requires d < |fs.inodes|
    ensures Keeps(fs, AddEntry(fs, d, name, ip))
  {
    forall x, n | Lookup(fs, x, n).Some? ensures Lookup(AddEntry(fs, d, name, ip), x, n) == Lookup(fs, x, n) {
      AddedLookup(fs, d, name, ip, x, n);
    }
  }

  lemma CreateLookup(fs: Fs, d: nat, name: string, kind: Kind, x: nat, n: string)
    requires d < |fs.inodes|
    ensures Lookup(Create(fs, d, name, kind), x, n) ==
              if Lookup(fs, x, n).Some? then Lookup(fs, x, n)
              else if x == d && n == name && fs.inodes[d].kind == Dir then Some(|fs.inodes|) else None
  {
    var fs1 := fs.(inodes := fs.inodes + [Inode(kind, [], 1)]);
    AddedLookup(fs1, d, name, |fs.inodes|, x, n);
    assert Lookup(fs1, x, n) == Lookup(fs, x, n);
  }

  lemma CreateKeeps(fs: Fs, d: nat, name: string, kind: Kind)
    requires d < |fs.inodes|
    ensures Keeps(fs, Create(fs, d, name, kind))
  {
    forall x, n | Lookup(fs, x, n).Some? ensures Lookup(Create(fs, d, name, kind), x, n) == Lookup(fs, x, n) {
      CreateLookup(fs, d, name, kind, x, n);
    }
  }

  /** After a successful create or mkdir the path resolves to the new inode, and every path that resolved
      before resolves to the same inode as before. */
  lemma CreateResolves(fs: Fs, path: string, kind: Kind, other: string)
    requires FsOk(fs) && IsPath(path) && IsPath(other)
    requires Namei(fs, path).None? && NameiParent(fs, path).Some?
    requires NameiParent(fs, path).value.dir < |fs.inodes| && fs.inodes[NameiParent(fs, path).value.dir].kind == Dir
    ensures var p := NameiParent(fs, path).value;
            var fs' := Create(fs, p.dir, p.name, kind);
            && FsOk(fs') && Namei(fs', path) == Some(|fs.inodes|) && fs'.inodes[|fs.inodes|].kind == kind
            && (Namei(fs, other).Some? ==> Namei(fs', other) == Namei(fs, other))
  {
    var p := NameiParent(fs, path).value;
    var fs' := Create(fs, p.dir, p.name, kind);
    CreateKeeps(fs, p.dir, p.name, kind);
    NameiOfParent(fs, path);
    ParentKeeps(fs, fs', path);
    NameiOfParent(fs', path);
    CreateLookup(fs, p.dir, p.name, kind, p.dir, p.name);
    if Namei(fs, other).Some? {
      NameiKeeps(fs, fs', other);
    }
  }

  lemma ParentKeeps(fs: Fs, fs': Fs, path: string)
    requires FsOk(fs) && FsOk(fs') && Keeps(fs, fs') && IsPath(path) && NameiParent(fs, path).Some?
    ensures NameiParent(fs', path) == NameiParent(fs, path)
  {
    var comps := Rest(fs, path);
    WalkKeeps(fs, fs', Root(fs, path), comps[..|comps| - 1]);
  }

  /** After a link of inode `ip` at `path`, the path means what it meant before if it meant anything, and
      `ip` otherwise, provided the parent is a directory; all other resolutions stay. */
  lemma LinkResolves(fs: Fs, path: string, ip: nat, other: string)
    requires FsOk(fs) && IsPath(path) && IsPath(other) && ip < |fs.inodes|
    requires NameiParent(fs, path).Some? && NameiParent(fs, path).value.dir < |fs.inodes|
    ensures var p := NameiParent(fs, path).value;
            var fs' := AddEntry(fs, p.dir, p.name, ip);
            && FsOk(fs')
            && Namei(fs', path) == (if Namei(fs, path).Some? then Namei(fs, path)
                                    else if fs.inodes[p.dir].kind == Dir then Some(ip) else None)
            && (Namei(fs, other).Some? ==> Namei(fs', other) == Namei(fs, other))
  {
    var p := NameiParent(fs, path).value;
    var fs' := AddEntry(fs, p.dir, p.name, ip);
    AddKeeps(fs, p.dir, p.name, ip);
    NameiOfParent(fs, path);
    ParentKeeps(fs, fs', path);
    NameiOfParent(fs', path);
    AddedLookup(fs, p.dir, p.name, ip, p.dir, p.name);
    if Namei(fs, other).Some? {
      NameiKeeps(fs, fs', other);
    }
  }

  /** Resolution stays within the inodes. */
  lemma {:induction false} WalkValid(fs: Fs, ip: nat, comps: seq<string>)
    requires FsOk(fs) && ip < |fs.inodes|
    ensures Walk(fs, ip, comps).Some? ==> Walk(fs, ip, comps).value < |fs.inodes|
    decreases |comps|
  {
    if comps != [] {
      match Lookup(fs, ip, comps[0])
      case Some(next) =>
        FirstValid(fs.inodes[ip].ents, comps[0], |fs.inodes|);
        WalkValid(fs, next, comps[1..]);
      case None =>
    }
  }

  lemma {:induction false} FirstValid(ents: seq<Ent>, name: string, n: nat)
    requires forall i :: 0 <= i < |ents| ==> ents[i].ip < n
    ensures First(ents, name).Some? ==> First(ents, name).value < n
  {
    if ents != [] {
      FirstValid(ents[1..], name, n);
    }
  }
}
