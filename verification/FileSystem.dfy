/** The loops of path resolution and the directory operations of `oslabs/kernel/src/vfs.c` in place, with
the link counts they keep.
 */
module FileSystem {
  import opened Common
  import opened Paths

  // ------------------------------------------------------------------ resolution loops

  /** `nextcomp`: the component at the start of `p` and what follows it. */
  method NextComp(p: string) returns (name: string, rest: string)
    ensures SkipSlash(p) == name + rest
    ensures Comps(p) == if name == [] then [] else [name] + Comps(rest)
    ensures (name == [] <==> SkipSlash(p) == []) && |name| <= NAMEMAX
  {
    var q := Skip(p);
    var i := 0;
    while i < |q| && q[i] != '/' && i < NAMEMAX
      invariant i <= |q| && i <= NAMEMAX && CompLen(q, 0) == CompLen(q, i)
    {
      i := i + 1;
    }
    name, rest := q[..i], q[i..];
  }

  /** `skipslash`. */
  method Skip(p: string) returns (q: string)
    ensures q == SkipSlash(p)
  {
    var i := 0;
    while i < |p| && p[i] == '/'
      invariant i <= |p| && SkipSlash(p[i..]) == SkipSlash(p)
    {
      assert p[i..][1..] == p[i + 1..];
      i := i + 1;
    }
    q := p[i..];
  }

  /** `dir_lookup`. */
  method DirLookup(fs: Fs, d: nat, name: string) returns (r: Option<nat>)
    requires d < |fs.inodes|
    ensures r == Lookup(fs, d, name)
  {
    if fs.inodes[d].kind != Dir {
      return None;
    }
    var ents, i := fs.inodes[d].ents, 0;
    assert ents[0..] == ents;
    while i < |ents|
      invariant i <= |ents| && First(ents[i..], name) == First(ents, name)
    {
      assert ents[i..][1..] == ents[i + 1..];
      if ents[i].name == name {
        return Some(ents[i].ip);
      }
      i := i + 1;
    }
    r := None;
  }

  /** `resolve_mount`. */
  method ResolveMount(fs: Fs, path: string) returns (root: nat, rest: string)
    requires FsOk(fs) && IsPath(path)
    ensures root == Root(fs, path) && Comps(rest) == Rest(fs, path) && SkipSlash(rest) == rest
  {
    var best, bestlen, i := 0, 1, 1;
    while i < |fs.mounts|
      invariant 1 <= i <= |fs.mounts| && best == Best(fs.mounts, path, i)
      invariant bestlen == if best == 0 then 1 else |fs.mounts[best].path|
    {
      var l := |fs.mounts[i].path|;
      if fs.mounts[i].path <= path && (|path| == l || path[l] == '/') && l > bestlen {
        best, bestlen := i, l;
      }
      i := i + 1;
    }
    BestLenFits(fs, path);
    rest := Skip(path[bestlen..]);
    SkipTwice(path[bestlen..]);
    root := fs.mounts[best].root;
  }

  lemma {:induction false} SkipTwice(p: string)
    ensures SkipSlash(SkipSlash(p)) == SkipSlash(p) && Comps(SkipSlash(p)) == Comps(p)
  {
  }

  /** `namei`. */
  method NameiLoop(fs: Fs, path: string) returns (r: Option<nat>)
    requires FsOk(fs) && IsPath(path)
    ensures r == Namei(fs, path)
    ensures r.Some? ==> r.value < |fs.inodes|
  {
    var ip: nat, rest := ResolveMount(fs, path);
    WalkValid(fs, ip, Rest(fs, path));
    while rest != []
      invariant ip < |fs.inodes| && Walk(fs, ip, Comps(rest)) == Namei(fs, path)
      decreases |rest|
    {
      var name, rest' := NextComp(rest);
      if name == [] {
        rest := [];
        break;
      }
      if fs.inodes[ip].kind != Dir {
        return None;
      }
      var next := DirLookup(fs, ip, name);
      if next == None {
        return None;
      }
      FirstValid(fs.inodes[ip].ents, name, |fs.inodes|);
      ip, rest := next.value, rest';
    }
    r := Some(ip);
  }

  /** `namei_parent`. */
  method NameiParentLoop(fs: Fs, path: string) returns (r: Option<Parent>)
    requires FsOk(fs) && IsPath(path)
    ensures r == NameiParent(fs, path)
    ensures r.Some? ==> r.value.dir < |fs.inodes| && |r.value.name| <= NAMEMAX
  {
    var ip: nat, rest := ResolveMount(fs, path);
    if rest == [] {
      return None;
    }
    while true
      invariant ip < |fs.inodes| && rest != [] && rest[0] != '/'
      invariant ParentFrom(fs, ip, Comps(rest)) == NameiParent(fs, path)
      decreases |rest|
    {
      var name, rest' := NextComp(rest);
      var n := Skip(rest');
      SkipTwice(rest');
      if n == [] {
        return Some(Parent(ip, name));
      }
      ParentStep(fs, ip, name, Comps(n));
      if fs.inodes[ip].kind != Dir {
        return None;
      }
      var next := DirLookup(fs, ip, name);
      if next == None {
        return None;
      }
      FirstValid(fs.inodes[ip].ents, name, |fs.inodes|);
      ip, rest := next.value, n;
    }
  }

  /** The parent reached from inode `ip` along `comps`. */
  function ParentFrom(fs: Fs, ip: nat, comps: seq<string>): Option<Parent> {
    if comps == [] then None
    else match Walk(fs, ip, comps[..|comps| - 1])
      case Some(d) => Some(Parent(d, comps[|comps| - 1]))
      case None => None
  }

  lemma ParentStep(fs: Fs, ip: nat, name: string, comps: seq<string>)
    requires comps != []
    ensures ParentFrom(fs, ip, [name] + comps) ==
              match Lookup(fs, ip, name) case Some(next) => ParentFrom(fs, next, comps) case None => None
  {
    var all := [name] + comps;
    assert all[..|all| - 1] == [name] + comps[..|comps| - 1];
    assert all[..|all| - 1][1..] == comps[..|comps| - 1];
  }

  // ------------------------------------------------------------------ link counts

  function CountIn(ents: seq<Ent>, x: nat): nat {
    if ents == [] then 0 else (if ents[0].ip == x then 1 else 0) + CountIn(ents[1..], x)
  }

  /** How many directory entries name inode `x`. */
  function CountAll(inodes: seq<Inode>, x: nat): nat {
    if inodes == [] then 0 else CountIn(inodes[0].ents, x) + CountAll(inodes[1..], x)
  }

  ghost predicate IsRoot(fs: Fs, x: nat) {
    exists i :: 0 <= i < |fs.mounts| && fs.mounts[i].root == x
  }

  /** Every inode but the mount roots has as many links as entries. */
  ghost predicate LinksOk(fs: Fs) {
    forall x :: 0 <= x < |fs.inodes| && !IsRoot(fs, x) ==> fs.inodes[x].nlink == CountAll(fs.inodes, x)
  }

  lemma {:induction false} CountConcat(a: seq<Ent>, b: seq<Ent>, x: nat)
    ensures CountIn(a + b, x) == CountIn(a, x) + CountIn(b, x)
  {
    if a == [] {
      assert a + b == b;
    } else {
      assert (a + b)[1..] == a[1..] + b;
      CountConcat(a[1..], b, x);
    }
  }

  /** Changing one inode changes the count by the change in its own entries. */
  lemma {:induction false} CountUpdate(inodes: seq<Inode>, d: nat, inode: Inode, x: nat)
    requires d < |inodes|
    ensures CountAll(inodes[d := inode], x) == CountAll(inodes, x) - CountIn(inodes[d].ents, x) + CountIn(inode.ents, x)
    ensures CountIn(inodes[d].ents, x) <= CountAll(inodes, x)
  {
    var inodes' := inodes[d := inode];
    if d == 0 {
      assert inodes'[1..] == inodes[1..];
    } else {
      assert inodes'[1..] == inodes[1..][d - 1 := inode];
      CountUpdate(inodes[1..], d - 1, inode, x);
    }
  }

  lemma {:induction false} CountNew(inodes: seq<Inode>, inode: Inode, x: nat)
    ensures CountAll(inodes + [inode], x) == CountAll(inodes, x) + CountIn(inode.ents, x)
  {
    if inodes == [] {
      assert inodes + [inode] == [inode];
    } else {
      assert (inodes + [inode])[1..] == inodes[1..] + [inode];
      CountNew(inodes[1..], inode, x);
    }
  }

  /** Nothing names an inode that does not exist. */
  lemma {:induction false} CountOutside(inodes: seq<Inode>, x: nat)
    requires forall d, i :: 0 <= d < |inodes| && 0 <= i < |inodes[d].ents| ==> inodes[d].ents[i].ip < x
    ensures CountAll(inodes, x) == 0
  {
    if inodes != [] {
      assert inodes[0].ents == inodes[0].ents[..];
      CountBelow(inodes[0].ents, x);
      CountOutside(inodes[1..], x);
    }
  }

  lemma {:induction false} CountBelow(ents: seq<Ent>, x: nat)
    requires forall i :: 0 <= i < |ents| ==> ents[i].ip < x
    ensures CountIn(ents, x) == 0
  {
    if ents != [] {
      CountBelow(ents[1..], x);
    }
  }

  lemma AddCounts(inodes: seq<Inode>, d: nat, e: Ent, x: nat)
    requires d < |inodes|
    ensures CountAll(inodes[d := inodes[d].(ents := inodes[d].ents + [e])], x)
              == CountAll(inodes, x) + if e.ip == x then 1 else 0
  {
    CountUpdate(inodes, d, inodes[d].(ents := inodes[d].ents + [e]), x);
    CountConcat(inodes[d].ents, [e], x);
    assert [e][1..] == [];
  }

  /** A change of link count does not change any entry. */
  lemma RecountKeeps(inodes: seq<Inode>, y: nat, nlink: int, x: nat)
    requires y < |inodes|
    ensures CountAll(inodes[y := inodes[y].(nlink := nlink)], x) == CountAll(inodes, x)
  {
    CountUpdate(inodes, y, inodes[y].(nlink := nlink), x);
  }

  lemma CreateLinks(fs: Fs, d: nat, name: string, kind: Kind)
    requires FsOk(fs) && LinksOk(fs) && d < |fs.inodes|
    ensures LinksOk(Create(fs, d, name, kind)) && FsOk(Create(fs, d, name, kind))
  {
    var fs', n := Create(fs, d, name, kind), |fs.inodes|;
    var inodes1 := fs.inodes + [Inode(kind, [], 1)];
    CountOutside(fs.inodes, n);
    forall x | 0 <= x < |fs'.inodes| && !IsRoot(fs', x) ensures fs'.inodes[x].nlink == CountAll(fs'.inodes, x) {
      AddCounts(inodes1, d, Ent(name, n), x);
      CountNew(fs.inodes, Inode(kind, [], 1), x);
      assert x < n ==> !IsRoot(fs, x);
    }
  }

  lemma MountLinks(fs: Fs, path: string)
    requires FsOk(fs) && LinksOk(fs)
    ensures var fs' := Fs(fs.inodes + [Inode(Dir, [], 1)], fs.mounts + [Mount(path, |fs.inodes|)]);
            FsOk(fs') && LinksOk(fs')
  {
    var fs' := Fs(fs.inodes + [Inode(Dir, [], 1)], fs.mounts + [Mount(path, |fs.inodes|)]);
    assert fs'.mounts[|fs.mounts|].root == |fs.inodes|;
    forall x | 0 <= x < |fs'.inodes| && !IsRoot(fs', x) ensures fs'.inodes[x].nlink == CountAll(fs'.inodes, x) {
      CountNew(fs.inodes, Inode(Dir, [], 1), x);
      assert forall i :: 0 <= i < |fs.mounts| ==> fs'.mounts[i] == fs.mounts[i];
      assert !IsRoot(fs, x);
    }
  }

  /** `vfs_link`: one more entry, one more link. */
  function Link(fs: Fs, d: nat, name: string, ip: nat): Fs
    requires d < |fs.inodes| && ip < |fs.inodes|
  {
    var fs1 := AddEntry(fs, d, name, ip);
    fs1.(inodes := fs1.inodes[ip := fs1.inodes[ip].(nlink := fs1.inodes[ip].nlink + 1)])
  }

  /** What linking does to the links and the entries of one inode. */
  lemma LinkAt(fs: Fs, d: nat, name: string, ip: nat, x: nat)
    requires d < |fs.inodes| && ip < |fs.inodes| && x < |fs.inodes|
    ensures var more := if ip == x then 1 else 0;
            && Link(fs, d, name, ip).inodes[x].nlink == fs.inodes[x].nlink + more
            && CountAll(Link(fs, d, name, ip).inodes, x) == CountAll(fs.inodes, x) + more
  {
    var fs1 := AddEntry(fs, d, name, ip);
    AddCounts(fs.inodes, d, Ent(name, ip), x);
    RecountKeeps(fs1.inodes, ip, fs1.inodes[ip].nlink + 1, x);
  }

  lemma LinkLinks(fs: Fs, d: nat, name: string, ip: nat)
    requires FsOk(fs) && LinksOk(fs) && d < |fs.inodes| && ip < |fs.inodes|
    ensures LinksOk(Link(fs, d, name, ip)) && FsOk(Link(fs, d, name, ip))
  {
    var fs' := Link(fs, d, name, ip);
    forall x | 0 <= x < |fs'.inodes| && !IsRoot(fs', x) ensures fs'.inodes[x].nlink == CountAll(fs'.inodes, x) {
      LinkAt(fs, d, name, ip, x);
      assert !IsRoot(fs, x);
    }
  }

  lemma {:induction false} WalkSame(fs: Fs, fs': Fs, ip: nat, comps: seq<string>)
    requires forall x, n :: Lookup(fs', x, n) == Lookup(fs, x, n)
    ensures Walk(fs', ip, comps) == Walk(fs, ip, comps)
    decreases |comps|
  {
    if comps != [] {
      match Lookup(fs, ip, comps[0])
      case Some(next) => WalkSame(fs, fs', next, comps[1..]);
      case None =>
    }
  }

  /** A link gives `path` a meaning only if it had none and its parent is a directory, and changes the
      meaning of no other path that resolved. */
  lemma LinkMeaning(fs: Fs, path: string, ip: nat, other: string)
    requires FsOk(fs) && LinksOk(fs) && IsPath(path) && IsPath(other) && ip < |fs.inodes|
    requires NameiParent(fs, path).Some? && NameiParent(fs, path).value.dir < |fs.inodes|
    ensures var p := NameiParent(fs, path).value;
            var fs' := Link(fs, p.dir, p.name, ip);
            && FsOk(fs')
            && Namei(fs', path) == (if Namei(fs, path).Some? then Namei(fs, path)
                                    else if fs.inodes[p.dir].kind == Dir then Some(ip) else None)
            && (Namei(fs, other).Some? ==> Namei(fs', other) == Namei(fs, other))
  {
    var p := NameiParent(fs, path).value;
    var fs1, fs' := AddEntry(fs, p.dir, p.name, ip), Link(fs, p.dir, p.name, ip);
    LinkLinks(fs, p.dir, p.name, ip);
    LinkResolves(fs, path, ip, other);
    WalkSame(fs1, fs', Root(fs, path), Rest(fs, path));
    WalkSame(fs1, fs', Root(fs, other), Rest(fs, other));
  }

  /** `ent[i] = ent[--nent]`. */
  function SwapRemove(ents: seq<Ent>, i: nat): seq<Ent>
    requires i < |ents|
  {
    var last := |ents| - 1;
    ents[i := ents[last]][..last]
  }

  /** `vfs_unlink` of entry `i` of inode `d`. */
  function Unlink(fs: Fs, d: nat, i: nat): Fs
    requires d < |fs.inodes| && i < |fs.inodes[d].ents| && fs.inodes[d].ents[i].ip < |fs.inodes|
  {
    var ip := fs.inodes[d].ents[i].ip;
    var inodes1 := fs.inodes[ip := fs.inodes[ip].(nlink := fs.inodes[ip].nlink - 1)];
    fs.(inodes := inodes1[d := inodes1[d].(ents := SwapRemove(inodes1[d].ents, i))])
  }

  lemma SwapCounts(ents: seq<Ent>, i: nat, x: nat)
    requires i < |ents|
    ensures CountIn(SwapRemove(ents, i), x) == CountIn(ents, x) - if ents[i].ip == x then 1 else 0
  {
    var last := |ents| - 1;
    var front := ents[..last];
    assert ents == front + [ents[last]];
    CountConcat(front, [ents[last]], x);
    assert [ents[last]][1..] == [];
    if i < last {
      assert front == ents[..i] + [ents[i]] + ents[i + 1..last];
      assert SwapRemove(ents, i) == ents[..i] + [ents[last]] + ents[i + 1..last];
      CountMiddle(ents[..i], ents[i], ents[i + 1..last], x);
      CountMiddle(ents[..i], ents[last], ents[i + 1..last], x);
    } else {
      assert SwapRemove(ents, i) == front;
    }
  }

  lemma CountMiddle(a: seq<Ent>, e: Ent, b: seq<Ent>, x: nat)
    ensures CountIn(a + [e] + b, x) == CountIn(a, x) + CountIn(b, x) + if e.ip == x then 1 else 0
  {
    CountConcat(a + [e], b, x);
    CountConcat(a, [e], x);
    assert [e][1..] == [];
  }

  /** What unlinking does to the links and the entries of one inode. */
  lemma UnlinkAt(fs: Fs, d: nat, i: nat, x: nat)
    requires d < |fs.inodes| && i < |fs.inodes[d].ents| && fs.inodes[d].ents[i].ip < |fs.inodes| && x < |fs.inodes|
    ensures var less := if fs.inodes[d].ents[i].ip == x then 1 else 0;
            && Unlink(fs, d, i).inodes[x].nlink == fs.inodes[x].nlink - less
            && CountAll(Unlink(fs, d, i).inodes, x) == CountAll(fs.inodes, x) - less
  {
    var ip := fs.inodes[d].ents[i].ip;
    var inodes1 := fs.inodes[ip := fs.inodes[ip].(nlink := fs.inodes[ip].nlink - 1)];
    RecountKeeps(fs.inodes, ip, fs.inodes[ip].nlink - 1, x);
    CountUpdate(inodes1, d, inodes1[d].(ents := SwapRemove(inodes1[d].ents, i)), x);
    SwapCounts(inodes1[d].ents, i, x);
  }

  lemma UnlinkFsOk(fs: Fs, d: nat, i: nat)
    requires FsOk(fs) && d < |fs.inodes| && i < |fs.inodes[d].ents|
    ensures FsOk(Unlink(fs, d, i))
  {
    var fs', was := Unlink(fs, d, i), fs.inodes[d].ents;
    assert forall k :: 0 <= k < |was| - 1 ==> SwapRemove(was, i)[k] == was[if k == i then |was| - 1 else k];
    forall e, k | 0 <= e < |fs'.inodes| && 0 <= k < |fs'.inodes[e].ents| ensures fs'.inodes[e].ents[k].ip < |fs'.inodes| {
      assert fs'.inodes[e].ents == if e == d then SwapRemove(was, i) else fs.inodes[e].ents;
    }
  }

  lemma UnlinkLinks(fs: Fs, d: nat, i: nat)
    requires FsOk(fs) && LinksOk(fs) && d < |fs.inodes| && i < |fs.inodes[d].ents|
    ensures LinksOk(Unlink(fs, d, i)) && FsOk(Unlink(fs, d, i))
  {
    var fs' := Unlink(fs, d, i);
    UnlinkFsOk(fs, d, i);
    forall x | 0 <= x < |fs'.inodes| && !IsRoot(fs', x) ensures fs'.inodes[x].nlink == CountAll(fs'.inodes, x) {
      UnlinkAt(fs, d, i, x);
      assert !IsRoot(fs, x);
    }
  }

  // ------------------------------------------------------------------ what unlinking means

  lemma {:induction false} FirstConcat(a: seq<Ent>, b: seq<Ent>, name: string)
    ensures First(a + b, name) == if First(a, name).Some? then First(a, name) else First(b, name)
  {
    if a == [] {
      assert a + b == b;
    } else {
      assert (a + b)[1..] == a[1..] + b;
      FirstConcat(a[1..], b, name);
    }
  }

  /** What a name finds in a directory once entry `i` is gone and the last entry has taken its place: a
      second entry of that name may come to light, and the last entry may overtake one of its own name. */
  function AfterRemove(ents: seq<Ent>, i: nat, name: string): Option<nat>
    requires i < |ents|
  {
    var last := |ents| - 1;
    if First(ents[..i], name).Some? then First(ents[..i], name)
    else if i < last && ents[last].name == name then Some(ents[last].ip)
    else First(ents[i + 1..], name)
  }

  lemma SwapFirst(ents: seq<Ent>, i: nat, name: string)
    requires i < |ents|
    ensures First(SwapRemove(ents, i), name) == AfterRemove(ents, i, name)
  {
    var last := |ents| - 1;
    if i < last {
      var moved, rest := [ents[last]], ents[i + 1..last];
      assert SwapRemove(ents, i) == ents[..i] + (moved + rest);
      FirstConcat(ents[..i], moved + rest, name);
      FirstConcat(moved, rest, name);
      assert moved[1..] == [];
      assert ents[i + 1..] == rest + moved;
      FirstConcat(rest, moved, name);
    } else {
      assert SwapRemove(ents, i) == ents[..i];
      assert ents[i + 1..] == [];
    }
  }

  /** Every lookup after an unlink, whatever duplicates there are. */
  lemma UnlinkLookup(fs: Fs, d: nat, i: nat, x: nat, name: string)
    requires FsOk(fs) && d < |fs.inodes| && i < |fs.inodes[d].ents|
    ensures Lookup(Unlink(fs, d, i), x, name) ==
              if x == d && IsDir(fs, d) then AfterRemove(fs.inodes[d].ents, i, name) else Lookup(fs, x, name)
  {
    SwapFirst(fs.inodes[d].ents, i, name);
  }

  ghost predicate NamesDistinct(ents: seq<Ent>) {
    forall i, j :: 0 <= i < j < |ents| ==> ents[i].name != ents[j].name
  }

  lemma {:induction false} FirstIs(ents: seq<Ent>, name: string, k: nat)
    requires k <= |ents| && (forall i :: 0 <= i < k ==> ents[i].name != name) && (k < |ents| ==> ents[k].name == name)
    ensures First(ents, name) == if k < |ents| then Some(ents[k].ip) else None
  {
    if k > 0 {
      FirstIs(ents[1..], name, k - 1);
    }
  }

  lemma RemovedIsLost(ents: seq<Ent>, i: nat)
    requires i < |ents| && NamesDistinct(ents)
    ensures AfterRemove(ents, i, ents[i].name) == None
  {
    var rest := ents[i + 1..];
    FirstIs(ents[..i], ents[i].name, i);
    FirstIs(rest, ents[i].name, |rest|);
  }

  /** An entry of another name does not matter. */
  lemma FirstAround(ents: seq<Ent>, i: nat, name: string)
    requires i < |ents| && name != ents[i].name
    ensures First(ents, name) == if First(ents[..i], name).Some? then First(ents[..i], name) else First(ents[i + 1..], name)
  {
    var rest := ents[i + 1..];
    assert ents == ents[..i] + ([ents[i]] + rest);
    FirstConcat(ents[..i], [ents[i]] + rest, name);
    FirstConcat([ents[i]], rest, name);
    assert [ents[i]][1..] == [];
  }

  lemma OthersStay(ents: seq<Ent>, i: nat, name: string)
    requires i < |ents| && NamesDistinct(ents) && name != ents[i].name
    ensures AfterRemove(ents, i, name) == First(ents, name)
  {
    var last, rest := |ents| - 1, ents[i + 1..];
    FirstAround(ents, i, name);
    if i < last && ents[last].name == name {
      forall k | 0 <= k < |rest| - 1 ensures rest[k].name != name {
        assert rest[k] == ents[i + 1 + k];
      }
      FirstIs(rest, name, |rest| - 1);
    }
  }

  /** Without duplicates exactly the removed name is lost. */
  lemma DistinctRemove(ents: seq<Ent>, i: nat, name: string)
    requires i < |ents| && NamesDistinct(ents)
    ensures AfterRemove(ents, i, name) == if name == ents[i].name then None else First(ents, name)
  {
    if name == ents[i].name {
      RemovedIsLost(ents, i);
    } else {
      OthersStay(ents, i, name);
    }
  }

  /** Following `comps` from inode `ip` looks `name` up in directory `d`. */
  predicate Uses(fs: Fs, ip: nat, comps: seq<string>, d: nat, name: string)
    decreases |comps|
  {
    comps != []
    && ((ip == d && comps[0] == name)
        || (Lookup(fs, ip, comps[0]).Some? && Uses(fs, Lookup(fs, ip, comps[0]).value, comps[1..], d, name)))
  }

  lemma {:induction false} UnlinkWalk(fs: Fs, d: nat, i: nat, ip: nat, comps: seq<string>)
    requires FsOk(fs) && d < |fs.inodes| && i < |fs.inodes[d].ents| && NamesDistinct(fs.inodes[d].ents)
    ensures Walk(Unlink(fs, d, i), ip, comps) ==
              if Uses(fs, ip, comps, d, fs.inodes[d].ents[i].name) then None else Walk(fs, ip, comps)
    decreases |comps|
  {
    if comps != [] {
      UnlinkLookup(fs, d, i, ip, comps[0]);
      DistinctRemove(fs.inodes[d].ents, i, comps[0]);
      if Lookup(fs, ip, comps[0]).Some? {
        UnlinkWalk(fs, d, i, Lookup(fs, ip, comps[0]).value, comps[1..]);
      }
    }
  }

  lemma {:induction false} UsesLast(fs: Fs, ip: nat, comps: seq<string>, d: nat)
    requires comps != [] && Walk(fs, ip, comps[..|comps| - 1]) == Some(d)
    ensures Uses(fs, ip, comps, d, comps[|comps| - 1])
    decreases |comps|
  {
    if |comps| > 1 {
      assert comps[..|comps| - 1][1..] == comps[1..][..|comps| - 2];
      UsesLast(fs, Lookup(fs, ip, comps[0]).value, comps[1..], d);
    }
  }

  /** In a directory without duplicates, an unlink takes the meaning from exactly the paths that go through
      the entry, `path` itself among them, and changes no other. */
  lemma UnlinkMeaning(fs: Fs, path: string, i: nat, other: string)
    requires FsOk(fs) && IsPath(path) && IsPath(other) && NameiParent(fs, path).Some?
    requires IsFirst(fs, NameiParent(fs, path).value, i)
    requires NamesDistinct(fs.inodes[NameiParent(fs, path).value.dir].ents)
    ensures var p := NameiParent(fs, path).value;
            var fs' := Unlink(fs, p.dir, i);
            && FsOk(fs') && Namei(fs', path) == None
            && Namei(fs', other) == if Uses(fs, Root(fs, other), Rest(fs, other), p.dir, p.name) then None else Namei(fs, other)
  {
    var p := NameiParent(fs, path).value;
    UnlinkFsOk(fs, p.dir, i);
    UnlinkWalk(fs, p.dir, i, Root(fs, path), Rest(fs, path));
    UsesLast(fs, Root(fs, path), Rest(fs, path), p.dir);
    UnlinkWalk(fs, p.dir, i, Root(fs, other), Rest(fs, other));
  }

  /** Following `comps` from inode `ip` looks something up in `d`. */
  predicate Visits(fs: Fs, ip: nat, comps: seq<string>, d: nat)
    decreases |comps|
  {
    comps != []
    && (ip == d || (Lookup(fs, ip, comps[0]).Some? && Visits(fs, Lookup(fs, ip, comps[0]).value, comps[1..], d)))
  }

  lemma {:induction false} WalkAvoids(fs: Fs, d: nat, i: nat, ip: nat, comps: seq<string>)
    requires FsOk(fs) && d < |fs.inodes| && i < |fs.inodes[d].ents| && !Visits(fs, ip, comps, d)
    ensures Walk(Unlink(fs, d, i), ip, comps) == Walk(fs, ip, comps)
    decreases |comps|
  {
    if comps != [] {
      UnlinkLookup(fs, d, i, ip, comps[0]);
      if Lookup(fs, ip, comps[0]).Some? {
        WalkAvoids(fs, d, i, Lookup(fs, ip, comps[0]).value, comps[1..]);
      }
    }
  }

  /** With duplicates, a path into the directory, reached without passing through it, means what the
      remaining entries say: the unlinked path its next entry, which is the last one if that has its name. */
  lemma UnlinkUncovers(fs: Fs, d: nat, i: nat, path: string)
    requires FsOk(fs) && d < |fs.inodes| && i < |fs.inodes[d].ents| && IsPath(path)
    requires NameiParent(fs, path).Some? && NameiParent(fs, path).value.dir == d
    requires !Visits(fs, Root(fs, path), Rest(fs, path)[..|Rest(fs, path)| - 1], d)
    ensures FsOk(Unlink(fs, d, i))
    ensures Namei(Unlink(fs, d, i), path) ==
              if IsDir(fs, d) then AfterRemove(fs.inodes[d].ents, i, NameiParent(fs, path).value.name) else None
  {
    var fs', comps := Unlink(fs, d, i), Rest(fs, path);
    UnlinkFsOk(fs, d, i);
    WalkAvoids(fs, d, i, Root(fs, path), comps[..|comps| - 1]);
    NameiOfParent(fs', path);
    UnlinkLookup(fs, d, i, d, comps[|comps| - 1]);
  }

  /** Three files `a`, `b` and `c` in the root. */
  function ThreeFiles(): (fs: Fs)
    ensures FsOk(fs)
  {
    Fs([Inode(Dir, [Ent("a", 1), Ent("b", 2), Ent("c", 3)], 1), Inode(File, [], 1), Inode(File, [], 1), Inode(File, [], 1)],
       [Mount("/", 0)])
  }

  lemma OneComponent(fs: Fs, path: string)
    requires FsOk(fs) && |fs.mounts| == 1 && |path| == 2 && path[0] == '/' != path[1]
    ensures Rest(fs, path) == [path[1..]] && NameiParent(fs, path) == Some(Parent(fs.mounts[0].root, path[1..]))
    ensures Namei(fs, path) == Lookup(fs, fs.mounts[0].root, path[1..])
  {
    var q := path[1..];
    assert SkipSlash(q) == q && CompLen(q, 1) == 1;
    assert q[..1] == q && q[1..] == [];
    assert Comps(q) == [q];
    NameiOfParent(fs, path);
  }

  /** What a one-letter path means in a file system with one mount. */
  lemma LetterMeans(fs: Fs, c: char, k: nat)
    requires FsOk(fs) && |fs.mounts| == 1 && c != '/'
    requires var d := fs.mounts[0].root;
             && fs.inodes[d].kind == Dir && k < |fs.inodes[d].ents| && fs.inodes[d].ents[k].name == [c]
             && forall i :: 0 <= i < k ==> fs.inodes[d].ents[i].name != [c]
    ensures var d := fs.mounts[0].root;
            && NameiParent(fs, ['/', c]) == Some(Parent(d, [c]))
            && Namei(fs, ['/', c]) == Some(fs.inodes[d].ents[k].ip)
  {
    OneComponent(fs, ['/', c]);
    assert ['/', c][1..] == [c];
    FirstIs(fs.inodes[fs.mounts[0].root].ents, [c], k);
  }

  /** Linking `/a` at the existing `/c` succeeds and gives the file a second link, yet `/c` still means the old
      file. */
  lemma LinkHides()
    ensures var fs := ThreeFiles();
            var linked := Link(fs, 0, "c", 1);
            && LinksOk(fs) && Namei(fs, "/a") == Some(1) && NameiParent(fs, "/c") == Some(Parent(0, "c"))
            && FsOk(linked) && Namei(linked, "/c") == Namei(fs, "/c") == Some(3) && linked.inodes[1].nlink == 2
  {
    var fs := ThreeFiles();
    ThreeLinks();
    LetterMeans(fs, 'a', 0);
    LetterMeans(fs, 'c', 2);
    LinkLinks(fs, 0, "c", 1);
    LetterMeans(Link(fs, 0, "c", 1), 'c', 2);
  }

  /** Unlinking `/a` after that moves the hidden entry to the front, and `/c` means what was `/a`. */
  lemma UnlinkReveals()
    ensures var linked := Link(ThreeFiles(), 0, "c", 1);
            && FsOk(linked) && IsFirst(linked, Parent(0, "a"), 0)
            && FsOk(Unlink(linked, 0, 0)) && Namei(Unlink(linked, 0, 0), "/c") == Some(1)
  {
    var linked := Link(ThreeFiles(), 0, "c", 1);
    UnlinkFsOk(linked, 0, 0);
    LetterMeans(Unlink(linked, 0, 0), 'c', 0);
  }

  lemma ThreeLinks()
    ensures LinksOk(ThreeFiles())
  {
    var fs := ThreeFiles();
    var ents := fs.inodes[0].ents;
    assert fs.mounts[0].root == 0 && IsRoot(fs, 0);
    forall x | 1 <= x < 4 ensures CountAll(fs.inodes, x) == 1 {
      assert ents == [ents[0], ents[1], ents[2]];
      assert ents[1..] == [ents[1], ents[2]] && ents[1..][1..] == [ents[2]] && ents[1..][1..][1..] == [];
      assert CountIn(ents, x) == 1;
      FilesNameNothing(fs.inodes[1..], x);
    }
  }

  lemma {:induction false} FilesNameNothing(inodes: seq<Inode>, x: nat)
    requires forall i :: 0 <= i < |inodes| ==> inodes[i].ents == []
    ensures CountAll(inodes, x) == 0
  {
    if inodes != [] {
      FilesNameNothing(inodes[1..], x);
    }
  }

  // ------------------------------------------------------------------ listings

  /** What `strncpy` into an entry stores. */
  function Trunc(name: string): string {
    name[..Min(|name|, NAMEMAX)]
  }

  /** Directory `d` holds the entries `names`, in this order, all for inodes of one kind. */
  ghost predicate Listing(fs: Fs, d: nat, names: seq<string>, kind: Kind) {
    && IsDir(fs, d) && |fs.inodes[d].ents| == |names|
    && forall i :: 0 <= i < |names| ==>
         var e := fs.inodes[d].ents[i]; e.name == names[i] && e.ip < |fs.inodes| && fs.inodes[e.ip].kind == kind
  }

  lemma ListingMore(fs: Fs, d: nat, names: seq<string>, kind: Kind, name: string)
    requires Listing(fs, d, names, kind)
    ensures Listing(Create(fs, d, name, kind), d, names + [name], kind)
  {
  }

  /** A new entry elsewhere, or a new root, changes no listing. */
  lemma ListingStays(fs: Fs, fs': Fs, d: nat, names: seq<string>, kind: Kind)
    requires Listing(fs, d, names, kind) && |fs'.inodes| >= |fs.inodes| && fs'.inodes[d] == fs.inodes[d]
    requires forall x :: 0 <= x < |fs.inodes| ==> fs'.inodes[x].kind == fs.inodes[x].kind
    ensures Listing(fs', d, names, kind)
  {
  }

  function Truncs(names: seq<string>): seq<string> {
    seq(|names|, i requires 0 <= i < |names| => Trunc(names[i]))
  }

  lemma TruncsMore(names: seq<string>, name: string)
    ensures Truncs(names + [name]) == Truncs(names) + [Trunc(name)]
  {
  }

  ghost predicate HasRootDirs(fs: Fs) {
    Listing(fs, 0, ["tmp", "bin", "dev", "proc"], Dir) && fs.inodes[0].ents[1].ip != 0
  }

  /** The root with its four directories, and the programs in `/bin`. */
  ghost predicate HasRamfs(fs: Fs, progs: seq<string>) {
    HasRootDirs(fs) && Listing(fs, fs.inodes[0].ents[1].ip, Truncs(progs), File)
  }

  lemma RootDirsStay(fs: Fs, fs': Fs, d: nat)
    requires HasRootDirs(fs) && d != 0 && |fs'.inodes| >= |fs.inodes|
    requires forall x :: 0 <= x < |fs.inodes| ==>
               fs'.inodes[x].kind == fs.inodes[x].kind && (x != d ==> fs'.inodes[x] == fs.inodes[x])
    ensures HasRootDirs(fs') && fs'.inodes[0] == fs.inodes[0]
  {
    ListingStays(fs, fs', 0, ["tmp", "bin", "dev", "proc"], Dir);
  }

  lemma RamfsStays(fs: Fs, fs': Fs, progs: seq<string>)
    requires HasRamfs(fs, progs) && fs.inodes <= fs'.inodes
    ensures HasRamfs(fs', progs)
  {
    RootDirsStay(fs, fs', |fs.inodes|);
    ListingStays(fs, fs', fs.inodes[0].ents[1].ip, Truncs(progs), File);
  }

  // ------------------------------------------------------------------ the paths of a new file system

  const DEVICES: seq<string> := ["zero", "null", "random", "tty"]
  const PROCS: seq<string> := ["meminfo", "uptime", "self"]

  /** What `vfs_init` leaves behind. */
  ghost predicate IsBoot(fs: Fs, progs: seq<string>) {
    && FsOk(fs) && |fs.mounts| == 3 && fs.mounts[0] == Mount("/", 0)
    && fs.mounts[1].path == "/dev" && fs.mounts[2].path == "/proc"
    && HasRamfs(fs, progs)
    && Listing(fs, fs.mounts[1].root, DEVICES, Dev) && Listing(fs, fs.mounts[2].root, PROCS, Proc)
    && fs.inodes[0].ents[2].ip < fs.mounts[1].root && fs.inodes[0].ents[3].ip < fs.mounts[2].root
  }

  lemma ListedLookup(fs: Fs, d: nat, names: seq<string>, kind: Kind, i: nat)
    requires Listing(fs, d, names, kind) && i < |names| && forall j :: 0 <= j < i ==> names[j] != names[i]
    ensures Lookup(fs, d, names[i]) == Some(fs.inodes[d].ents[i].ip)
    ensures fs.inodes[d].ents[i].ip < |fs.inodes| && fs.inodes[fs.inodes[d].ents[i].ip].kind == kind
  {
    FirstIs(fs.inodes[d].ents, names[i], i);
  }

  lemma BootMounts(fs: Fs, progs: seq<string>, q: string)
    requires IsBoot(fs, progs) && (q == [] || q[0] == '/')
    ensures IsMountOf(fs.mounts, "/dev" + q, 1) && IsMountOf(fs.mounts, "/proc" + q, 2)
  {
    assert ("/dev" + q)[1] == 'd' && ("/proc" + q)[1] == 'p';
    assert "/dev" <= "/dev" + q && "/proc" <= "/proc" + q;
    assert "/dev"[1] == 'd' && "/proc"[1] == 'p';
  }

  /** The path of the `i`-th file of a mounted directory. */
  lemma MountedFile(fs: Fs, b: nat, names: seq<string>, kind: Kind, i: nat)
    requires FsOk(fs) && b < |fs.mounts| && IsPath(fs.mounts[b].path) && i < |names| && IsName(names[i])
    requires IsMountOf(fs.mounts, fs.mounts[b].path + "/" + names[i], b) && Listing(fs, fs.mounts[b].root, names, kind)
    requires forall j :: 0 <= j < i ==> names[j] != names[i]
    ensures Namei(fs, fs.mounts[b].path + "/" + names[i]) == Some(fs.inodes[fs.mounts[b].root].ents[i].ip)
  {
    var q := "/" + names[i];
    assert fs.mounts[b].path + "/" + names[i] == fs.mounts[b].path + q;
    MountedPath(fs, b, q);
    SingleName(names[i]);
    ListedLookup(fs, fs.mounts[b].root, names, kind, i);
  }

  lemma SingleName(name: string)
    requires IsName(name)
    ensures Comps("/" + name) == [name]
  {
    CompsSlash(name);
    CompsStep(name, "");
    assert name + "" == name;
  }

  lemma TwoSteps(fs: Fs, ip: nat, x: string, d: nat, y: string)
    requires Lookup(fs, ip, x) == Some(d)
    ensures Walk(fs, ip, [x, y]) == Lookup(fs, d, y)
  {
    assert [x, y][1..] == [y] && [y][1..] == [];
    assert Walk(fs, d, [y]) == Lookup(fs, d, y) by {
      if Lookup(fs, d, y).Some? {
        assert Walk(fs, Lookup(fs, d, y).value, []) == Lookup(fs, d, y);
      }
    }
  }

  lemma TwoNames(x: string, y: string)
    requires IsName(x) && IsName(y)
    ensures Comps(x + "/" + y) == [x, y]
  {
    assert x + "/" + y == x + ("/" + y);
    CompsStep(x, "/" + y);
    SingleName(y);
  }

  lemma BinOnRoot(fs: Fs, progs: seq<string>, q: string)
    requires IsBoot(fs, progs)
    ensures IsOnRoot(fs.mounts, "/" + ("bin/" + q))
  {
    var path := "/" + ("bin/" + q);
    assert path[1] == 'b' && "/dev"[1] == 'd' && "/proc"[1] == 'p';
  }

  lemma ProgramEntry(fs: Fs, progs: seq<string>, i: nat)
    requires IsBoot(fs, progs) && i < |progs| && IsName(progs[i]) && forall j :: 0 <= j < i ==> Trunc(progs[j]) != progs[i]
    ensures var bin := fs.inodes[0].ents[1].ip;
            && Lookup(fs, 0, "bin") == Some(bin) && Lookup(fs, bin, progs[i]) == Some(fs.inodes[bin].ents[i].ip)
            && fs.inodes[bin].ents[i].ip < |fs.inodes| && fs.inodes[fs.inodes[bin].ents[i].ip].kind == File
  {
    ListedLookup(fs, 0, ["tmp", "bin", "dev", "proc"], Dir, 1);
    assert Truncs(progs)[i] == progs[i];
    ListedLookup(fs, fs.inodes[0].ents[1].ip, Truncs(progs), File, i);
  }

  /** What a path of two names means, if no mount but the root holds it. */
  lemma RootedFile(fs: Fs, x: string, d: nat, y: string)
    requires FsOk(fs) && IsName(x) && IsName(y) && IsOnRoot(fs.mounts, "/" + (x + "/" + y))
    requires Lookup(fs, fs.mounts[0].root, x) == Some(d)
    ensures Namei(fs, "/" + (x + "/" + y)) == Lookup(fs, d, y)
  {
    RootPath(fs, x + "/" + y);
    TwoNames(x, y);
    TwoSteps(fs, fs.mounts[0].root, x, d, y);
  }

  /** A program that can be named is found, the first of several of the same name. */
  lemma ProgramFile(fs: Fs, progs: seq<string>, i: nat)
    requires IsBoot(fs, progs) && i < |progs| && IsName(progs[i]) && forall j :: 0 <= j < i ==> Trunc(progs[j]) != progs[i]
    ensures var bin := fs.inodes[0].ents[1].ip;
            && Namei(fs, "/bin/" + progs[i]) == Some(fs.inodes[bin].ents[i].ip)
            && fs.inodes[bin].ents[i].ip < |fs.inodes| && fs.inodes[fs.inodes[bin].ents[i].ip].kind == File
  {
    ProgramEntry(fs, progs, i);
    assert "bin" + "/" + progs[i] == "bin/" + progs[i] && "/" + ("bin/" + progs[i]) == "/bin/" + progs[i];
    BinOnRoot(fs, progs, progs[i]);
    RootedFile(fs, "bin", fs.inodes[0].ents[1].ip, progs[i]);
  }

  lemma DeviceNames(i: nat)
    ensures i < |DEVICES| ==> IsName(DEVICES[i]) && forall j :: 0 <= j < i ==> DEVICES[j] != DEVICES[i]
    ensures i < |PROCS| ==> IsName(PROCS[i]) && forall j :: 0 <= j < i ==> PROCS[j] != PROCS[i]
  {
  }

  /** After `vfs_init` every device, proc file and nameable program is found at its path, and `/dev` and `/proc`
      mean the roots mounted there and not the directories of that name. */
  lemma BootPaths(fs: Fs, progs: seq<string>, i: nat)
    requires IsBoot(fs, progs)
    ensures Namei(fs, "/dev") == Some(fs.mounts[1].root) != Some(fs.inodes[0].ents[2].ip)
    ensures Namei(fs, "/proc") == Some(fs.mounts[2].root) != Some(fs.inodes[0].ents[3].ip)
    ensures i < |DEVICES| ==> Namei(fs, "/dev/" + DEVICES[i]) == Some(fs.inodes[fs.mounts[1].root].ents[i].ip)
    ensures i < |PROCS| ==> Namei(fs, "/proc/" + PROCS[i]) == Some(fs.inodes[fs.mounts[2].root].ents[i].ip)
  {
    BootMounts(fs, progs, []);
    MountedPath(fs, 1, []);
    MountedPath(fs, 2, []);
    assert "/dev" + [] == "/dev" && "/proc" + [] == "/proc";
    DeviceNames(i);
    if i < |DEVICES| {
      BootMounts(fs, progs, "/" + DEVICES[i]);
      assert "/dev" + "/" + DEVICES[i] == "/dev" + ("/" + DEVICES[i]) == "/dev/" + DEVICES[i];
      MountedFile(fs, 1, DEVICES, Dev, i);
    }
    if i < |PROCS| {
      BootMounts(fs, progs, "/" + PROCS[i]);
      assert "/proc" + "/" + PROCS[i] == "/proc" + ("/" + PROCS[i]) == "/proc/" + PROCS[i];
      MountedFile(fs, 2, PROCS, Proc, i);
    }
  }

  // ------------------------------------------------------------------ the operations

  datatype Outcome = Ok | Err | DirectoryFull

  class Tree {
    var fs: Fs

    ghost predicate Valid()
      reads this
    {
      FsOk(fs) && LinksOk(fs)
    }

    /** `vfs_init`: the three mounts and their first inodes, `progs` being the embedded programs. */
    constructor (progs: seq<string>)
      requires |progs| <= MAXDIRENT
      ensures Valid() && IsBoot(fs, progs)
    {
      fs := Fs([Inode(Dir, [], 1)], [Mount("/", 0)]);
      new;
      assert fs.mounts[0].root == 0;
      MountRamfs(progs);
      ghost var fs1 := fs;
      var dev := MountDevfs();
      RamfsStays(fs1, fs, progs);
      ghost var fs2 := fs;
      var proc := MountProcfs();
      RamfsStays(fs2, fs, progs);
      ListingStays(fs2, fs, dev, DEVICES, Dev);
    }

    method MountRamfs(progs: seq<string>)
      requires Valid() && |progs| <= MAXDIRENT && fs == Fs([Inode(Dir, [], 1)], [Mount("/", 0)])
      modifies this
      ensures Valid() && fs.mounts == old(fs).mounts && HasRamfs(fs, progs)
    {
      var bin := MakeRootDirs();
      var i := 0;
      while i < |progs|
        invariant i <= |progs| && Valid() && fs.mounts == old(fs).mounts
        invariant HasRootDirs(fs) && bin == fs.inodes[0].ents[1].ip && Listing(fs, bin, Truncs(progs[..i]), File)
      {
        ghost var was := fs;
        var f := Install(bin, progs[i], File, Truncs(progs[..i]));
        assert progs[..i + 1] == progs[..i] + [progs[i]];
        TruncsMore(progs[..i], progs[i]);
        RootDirsStay(was, fs, bin);
        i := i + 1;
      }
      assert progs[..i] == progs;
    }

    /** The directories of the root; the result is `/bin`. */
    method MakeRootDirs() returns (bin: nat)
      requires Valid() && fs == Fs([Inode(Dir, [], 1)], [Mount("/", 0)])
      modifies this
      ensures Valid() && fs.mounts == old(fs).mounts && HasRootDirs(fs)
      ensures bin == fs.inodes[0].ents[1].ip && fs.inodes[bin].ents == []
    {
      var tmp := Install(0, "tmp", Dir, []);
      bin := Install(0, "bin", Dir, ["tmp"]);
      MakePlaceholders(bin);
    }

    /** Directories that only make the listing of the root complete. */
    method MakePlaceholders(bin: nat)
      requires Valid() && Listing(fs, 0, ["tmp", "bin"], Dir) && bin == fs.inodes[0].ents[1].ip != 0 && fs.inodes[bin].ents == []
      modifies this
      ensures Valid() && fs.mounts == old(fs).mounts && HasRootDirs(fs)
      ensures bin == fs.inodes[0].ents[1].ip && fs.inodes[bin].ents == []
    {
      var dev := Install(0, "dev", Dir, ["tmp", "bin"]);
      var proc := Install(0, "proc", Dir, ["tmp", "bin", "dev"]);
    }

    method MountDevfs() returns (dev: nat)
      requires Valid()
      modifies this
      ensures Valid() && old(fs).inodes <= fs.inodes && fs.mounts == old(fs).mounts + [Mount("/dev", dev)]
      ensures Listing(fs, dev, DEVICES, Dev) && dev >= |old(fs).inodes|
    {
      dev := AddMount("/dev");
      ghost var was := old(fs).inodes;
      InstallAfter(dev, "zero", Dev, [], was);
      InstallAfter(dev, "null", Dev, ["zero"], was);
      InstallAfter(dev, "random", Dev, ["zero", "null"], was);
      InstallAfter(dev, "tty", Dev, ["zero", "null", "random"], was);
    }

    method MountProcfs() returns (proc: nat)
      requires Valid()
      modifies this
      ensures Valid() && old(fs).inodes <= fs.inodes && fs.mounts == old(fs).mounts + [Mount("/proc", proc)]
      ensures Listing(fs, proc, PROCS, Proc) && proc >= |old(fs).inodes|
    {
      proc := AddMount("/proc");
      ghost var was := old(fs).inodes;
      InstallAfter(proc, "meminfo", Proc, [], was);
      InstallAfter(proc, "uptime", Proc, ["meminfo"], was);
      InstallAfter(proc, "self", Proc, ["meminfo", "uptime"], was);
    }

    /** An entry in a directory made after the inodes `was`, which it leaves alone. */
    method InstallAfter(d: nat, name: string, kind: Kind, ghost names: seq<string>, ghost was: seq<Inode>)
      requires Valid() && Listing(fs, d, names, kind) && |names| < MAXDIRENT && |name| <= NAMEMAX
      requires was <= fs.inodes && |was| <= d
      modifies this
      ensures Valid() && Listing(fs, d, names + [name], kind) && was <= fs.inodes && fs.mounts == old(fs).mounts
    {
      var ip := Install(d, name, kind, names);
    }

    /** `dir_add(d, name, ialloc(kind))` in a directory that holds `names`. */
    method Install(d: nat, name: string, kind: Kind, ghost names: seq<string>) returns (ip: nat)
      requires Valid() && Listing(fs, d, names, kind) && |names| < MAXDIRENT
      modifies this
      ensures Valid() && fs == Create(old(fs), d, Trunc(name), kind) && ip == |old(fs).inodes|
      ensures |name| <= NAMEMAX ==> Trunc(name) == name
      ensures Listing(fs, d, names + [Trunc(name)], kind)
    {
      CreateLinks(fs, d, Trunc(name), kind);
      ListingMore(fs, d, names, kind, Trunc(name));
      ip := |fs.inodes|;
      fs := fs.(inodes := fs.inodes + [Inode(kind, [], 1)]);
      var ok := DirAdd(d, name, ip);
    }

    /** A new root directory and the mount that leads to it. */
    method AddMount(path: string) returns (root: nat)
      requires Valid()
      modifies this
      ensures Valid() && root == |old(fs).inodes|
      ensures fs == Fs(old(fs).inodes + [Inode(Dir, [], 1)], old(fs).mounts + [Mount(path, root)])
    {
      MountLinks(fs, path);
      root := |fs.inodes|;
      fs := Fs(fs.inodes + [Inode(Dir, [], 1)], fs.mounts + [Mount(path, root)]);
    }

    /** `dir_add`; a full directory is a panic. */
    method DirAdd(d: nat, name: string, ip: nat) returns (ok: bool)
      requires d < |fs.inodes|
      modifies this
      ensures ok == (|old(fs).inodes[d].ents| < MAXDIRENT)
      ensures fs == if ok then AddEntry(old(fs), d, Trunc(name), ip) else old(fs)
      ensures |name| <= NAMEMAX ==> Trunc(name) == name
    {
      ok := |fs.inodes[d].ents| < MAXDIRENT;
      if ok {
        fs := fs.(inodes := fs.inodes[d := fs.inodes[d].(ents := fs.inodes[d].ents + [Ent(Trunc(name), ip)])]);
      }
    }

    /** The creating part of `vfs_open`, and `vfs_mkdir`: a new inode, unless the path already resolves or
        has no parent directory. */
    method Make(path: string, kind: Kind) returns (outcome: Outcome)
      requires Valid() && IsPath(path)
      modifies this
      ensures outcome != DirectoryFull ==> Valid()
      ensures outcome == Err <==> Namei(old(fs), path).Some? || NameiParent(old(fs), path).None?
                                  || !IsDir(old(fs), NameiParent(old(fs), path).value.dir)
      ensures outcome == Err ==> fs == old(fs)
      ensures outcome != Err ==> (outcome == DirectoryFull <==> IsFull(old(fs), NameiParent(old(fs), path).value.dir))
      ensures outcome == Ok ==>
                var p := NameiParent(old(fs), path).value;
                p.dir < |old(fs).inodes| && fs == Create(old(fs), p.dir, p.name, kind)
                && Namei(fs, path) == Some(|old(fs).inodes|)
    {
      var found := NameiLoop(fs, path);
      if found.Some? {
        return Err;
      }
      var p := NameiParentLoop(fs, path);
      if p == None || fs.inodes[p.value.dir].kind != Dir {
        return Err;
      }
      CreateLinks(fs, p.value.dir, p.value.name, kind);
      CreateResolves(fs, path, kind, path);
      var ip := |fs.inodes|;
      fs := fs.(inodes := fs.inodes + [Inode(kind, [], 1)]);
      var ok := DirAdd(p.value.dir, p.value.name, ip);
      outcome := if ok then Ok else DirectoryFull;
    }

    /** `vfs_link`.  Neither an existing entry of that name nor a parent that is no directory stops it. */
    method LinkPath(a: string, b: string) returns (outcome: Outcome)
      requires Valid() && IsPath(a) && IsPath(b)
      modifies this
      ensures Valid()
      ensures outcome == Err <==> Namei(old(fs), a).None? || IsDir(old(fs), Namei(old(fs), a).value) || NameiParent(old(fs), b).None?
      ensures outcome != Ok ==> fs == old(fs)
      ensures outcome != Err ==> (outcome == DirectoryFull <==> IsFull(old(fs), NameiParent(old(fs), b).value.dir))
      ensures outcome == Ok ==>
                var p, ip := NameiParent(old(fs), b).value, Namei(old(fs), a).value;
                p.dir < |old(fs).inodes| && ip < |old(fs).inodes| && fs == Link(old(fs), p.dir, p.name, ip)
    {
      var ip := NameiLoop(fs, a);
      if ip == None || fs.inodes[ip.value].kind == Dir {
        return Err;
      }
      var p := NameiParentLoop(fs, b);
      if p == None {
        return Err;
      }
      var ok := AddLink(p.value.dir, p.value.name, ip.value);
      outcome := if ok then Ok else DirectoryFull;
    }

    /** The entry and the count of `vfs_link`. */
    method AddLink(d: nat, name: string, ip: nat) returns (ok: bool)
      requires Valid() && d < |fs.inodes| && ip < |fs.inodes| && |name| <= NAMEMAX
      modifies this
      ensures Valid() && ok == !IsFull(old(fs), d)
      ensures fs == if ok then Link(old(fs), d, name, ip) else old(fs)
    {
      LinkLinks(fs, d, name, ip);
      ok := DirAdd(d, name, ip);
      if ok {
        fs := fs.(inodes := fs.inodes[ip := fs.inodes[ip].(nlink := fs.inodes[ip].nlink + 1)]);
      }
    }

    /** `vfs_unlink`: the first entry of that name goes, and its inode has one link less. */
    method UnlinkPath(path: string) returns (outcome: Outcome)
      requires Valid() && IsPath(path)
      modifies this
      ensures Valid() && outcome != DirectoryFull
      ensures outcome == Err <==> NameiParent(old(fs), path).None? || !Names(old(fs), NameiParent(old(fs), path).value)
      ensures outcome == Err ==> fs == old(fs)
      ensures outcome == Ok ==>
                var p := NameiParent(old(fs), path).value;
                exists i :: IsFirst(old(fs), p, i) && fs == Unlink(old(fs), p.dir, i)
    {
      var p := NameiParentLoop(fs, path);
      if p == None {
        return Err;
      }
      var i := FindEntry(fs, p.value);
      if i == None {
        return Err;
      }
      RemoveEntry(p.value.dir, i.value);
      outcome := Ok;
    }

    /** The entry and the count of `vfs_unlink`. */
    method RemoveEntry(d: nat, i: nat)
      requires Valid() && d < |fs.inodes| && i < |fs.inodes[d].ents|
      modifies this
      ensures Valid() && fs == Unlink(old(fs), d, i)
    {
      UnlinkLinks(fs, d, i);
      var ip := fs.inodes[d].ents[i].ip;
      fs := fs.(inodes := fs.inodes[ip := fs.inodes[ip].(nlink := fs.inodes[ip].nlink - 1)]);
      fs := fs.(inodes := fs.inodes[d := fs.inodes[d].(ents := SwapRemove(fs.inodes[d].ents, i))]);
    }
  }

  /** The search of `vfs_unlink`. */
  method FindEntry(fs: Fs, p: Parent) returns (r: Option<nat>)
    requires FsOk(fs) && p.dir < |fs.inodes|
    ensures if r.Some? then IsFirst(fs, p, r.value) else !Names(fs, p)
  {
    var ents, i := fs.inodes[p.dir].ents, 0;
    while i < |ents|
      invariant i <= |ents| && forall k :: 0 <= k < i ==> ents[k].name != p.name
    {
      if ents[i].name == p.name {
        return Some(i);
      }
      i := i + 1;
    }
    r := None;
  }

  predicate IsDir(fs: Fs, x: nat) {
    x < |fs.inodes| && fs.inodes[x].kind == Dir
  }

  predicate IsFull(fs: Fs, d: nat) {
    d < |fs.inodes| && |fs.inodes[d].ents| >= MAXDIRENT
  }

  /** Entry `i` is the first of that name, and its inode exists. */
  ghost predicate IsFirst(fs: Fs, p: Parent, i: nat) {
    && p.dir < |fs.inodes| && i < |fs.inodes[p.dir].ents| && fs.inodes[p.dir].ents[i].ip < |fs.inodes|
    && fs.inodes[p.dir].ents[i].name == p.name
    && forall k :: 0 <= k < i ==> fs.inodes[p.dir].ents[k].name != p.name
  }

  ghost predicate Names(fs: Fs, p: Parent) {
    p.dir < |fs.inodes| && exists k :: 0 <= k < |fs.inodes[p.dir].ents| && fs.inodes[p.dir].ents[k].name == p.name
  }
}
