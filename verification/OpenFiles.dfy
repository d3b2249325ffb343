/** The system-wide table of open files and the descriptors of processes (`oslabs/kernel/src/vfs.c`).

Every operation keeps the reference count of each table entry equal to the number of descriptor slots
that point at it, so an entry is recycled only when no descriptor refers to it.
 */
module OpenFiles {
  import opened Common

  const NFILE: nat := 128
  const PROC_NOFILE: nat := 16

  datatype OpenFile = OpenFile(ip: Option<nat>, off: int, readable: bool, writable: bool, ref: int)

  type Descriptors = map<nat, seq<Option<nat>>>

  function NoFiles(): seq<Option<nat>> { seq(PROC_NOFILE, _ => None) }

  /** The slots that point at entry `f`. */
  ghost function Slots(ofile: Descriptors, f: nat): set<(nat, nat)> {
    set p, fd | p in ofile && 0 <= fd < |ofile[p]| && ofile[p][fd] == Some(f) :: (p, fd)
  }

  ghost predicate EntryOk(file: OpenFile, ofile: Descriptors, f: nat) {
    file.ref == |Slots(ofile, f)| && (file.ref > 0 ==> file.ip.Some?)
  }

  ghost predicate SlotsOk(ofile: Descriptors) {
    && (forall p :: p in ofile ==> |ofile[p]| == PROC_NOFILE)
    && (forall p, fd :: p in ofile && 0 <= fd < |ofile[p]| && ofile[p][fd].Some? ==> ofile[p][fd].value < NFILE)
  }

  ghost predicate Counted(ftable: seq<OpenFile>, ofile: Descriptors) {
    |ftable| == NFILE && SlotsOk(ofile) && forall f :: 0 <= f < NFILE ==> EntryOk(ftable[f], ofile, f)
  }

  // ------------------------------------------------------------------ changing one slot

  function SetSlot(ofile: Descriptors, p: nat, fd: nat, v: Option<nat>): Descriptors
    requires p in ofile && fd < |ofile[p]|
  {
    ofile[p := ofile[p][fd := v]]
  }

  lemma Clear(ofile: Descriptors, p: nat, fd: nat, f: nat, g: nat)
    requires p in ofile && fd < |ofile[p]| && ofile[p][fd] == Some(f)
    ensures |Slots(SetSlot(ofile, p, fd, None), g)| == |Slots(ofile, g)| - if g == f then 1 else 0
  {
    var ofile' := SetSlot(ofile, p, fd, None);
    if g == f {
      assert Slots(ofile, g) == Slots(ofile', g) + {(p, fd)};
    } else {
      assert Slots(ofile', g) == Slots(ofile, g);
    }
  }

  lemma Fill(ofile: Descriptors, p: nat, fd: nat, f: nat, g: nat)
    requires p in ofile && fd < |ofile[p]| && ofile[p][fd] == None
    ensures |Slots(SetSlot(ofile, p, fd, Some(f)), g)| == |Slots(ofile, g)| + if g == f then 1 else 0
  {
    var ofile' := SetSlot(ofile, p, fd, Some(f));
    Clear(ofile', p, fd, f, g);
    assert ofile'[p][fd := None] == ofile[p];
    assert SetSlot(ofile', p, fd, None) == ofile;
  }

  /** One more descriptor for entry `f`. */
  lemma FillKeeps(ftable: seq<OpenFile>, ofile: Descriptors, p: nat, fd: nat, f: nat, file: OpenFile)
    requires Counted(ftable, ofile) && p in ofile && fd < PROC_NOFILE && ofile[p][fd] == None && f < NFILE
    requires file.ref == ftable[f].ref + 1 && file.ip.Some?
    ensures Counted(ftable[f := file], SetSlot(ofile, p, fd, Some(f)))
  {
    var ftable', ofile' := ftable[f := file], SetSlot(ofile, p, fd, Some(f));
    forall g | 0 <= g < NFILE ensures EntryOk(ftable'[g], ofile', g) {
      assert EntryOk(ftable[g], ofile, g);
      Fill(ofile, p, fd, f, g);
    }
  }

  /** One descriptor less. */
  lemma ClearKeeps(ftable: seq<OpenFile>, ofile: Descriptors, p: nat, fd: nat, f: nat, file: OpenFile)
    requires Counted(ftable, ofile) && p in ofile && fd < PROC_NOFILE && ofile[p][fd] == Some(f) && f < NFILE
    requires file.ref == ftable[f].ref - 1 && (file.ref > 0 ==> file.ip == ftable[f].ip)
    ensures Counted(ftable[f := file], SetSlot(ofile, p, fd, None))
  {
    var ftable', ofile' := ftable[f := file], SetSlot(ofile, p, fd, None);
    forall g | 0 <= g < NFILE ensures EntryOk(ftable'[g], ofile', g) {
      assert EntryOk(ftable[g], ofile, g);
      Clear(ofile, p, fd, f, g);
    }
  }

  lemma CountsNatural(ftable: seq<OpenFile>, ofile: Descriptors)
    requires Counted(ftable, ofile)
    ensures forall f :: 0 <= f < NFILE ==> ftable[f].ref >= 0
  {
    forall f | 0 <= f < NFILE ensures ftable[f].ref >= 0 {
      assert EntryOk(ftable[f], ofile, f);
    }
  }

  /** A new process starts with empty slots. */
  lemma NewKeeps(ftable: seq<OpenFile>, ofile: Descriptors, p: nat)
    requires Counted(ftable, ofile) && p !in ofile
    ensures Counted(ftable, ofile[p := NoFiles()])
  {
    var ofile' := ofile[p := NoFiles()];
    forall g | 0 <= g < NFILE ensures EntryOk(ftable[g], ofile', g) {
      assert EntryOk(ftable[g], ofile, g);
      assert Slots(ofile', g) == Slots(ofile, g);
    }
  }

  /** A process without open files goes. */
  lemma GoneKeeps(ftable: seq<OpenFile>, ofile: Descriptors, p: nat)
    requires Counted(ftable, ofile) && p in ofile && forall fd :: 0 <= fd < PROC_NOFILE ==> ofile[p][fd] == None
    ensures Counted(ftable, ofile - {p})
  {
    forall g | 0 <= g < NFILE ensures EntryOk(ftable[g], ofile - {p}, g) {
      assert EntryOk(ftable[g], ofile, g);
      assert Slots(ofile - {p}, g) == Slots(ofile, g);
    }
  }

  /** Entries without references may change freely. */
  lemma SpareKeeps(ftable: seq<OpenFile>, ofile: Descriptors, f: nat, file: OpenFile)
    requires Counted(ftable, ofile) && f < NFILE && ftable[f].ref == 0 && file.ref == 0
    ensures Counted(ftable[f := file], ofile)
  {
    var ftable' := ftable[f := file];
    forall g | 0 <= g < NFILE ensures EntryOk(ftable'[g], ofile, g) {
      assert EntryOk(ftable[g], ofile, g);
    }
  }

  /** No descriptor refers to an entry that may be recycled, and every descriptor refers to a file. */
  lemma NoStaleDescriptor(ftable: seq<OpenFile>, ofile: Descriptors, p: nat, fd: nat)
    requires Counted(ftable, ofile) && p in ofile && fd < PROC_NOFILE && ofile[p][fd].Some?
    ensures var f := ofile[p][fd].value; f < NFILE && ftable[f].ref >= 1 && ftable[f].ip.Some?
  {
    var f := ofile[p][fd].value;
    assert EntryOk(ftable[f], ofile, f);
    assert (p, fd) in Slots(ofile, f);
  }

  // ------------------------------------------------------------------ free entries and slots

  ghost predicate FirstEntry(ftable: seq<OpenFile>, f: nat) {
    f < |ftable| && ftable[f].ref == 0 && forall i :: 0 <= i < f ==> ftable[i].ref != 0
  }

  ghost predicate NoEntry(ftable: seq<OpenFile>) {
    forall i :: 0 <= i < |ftable| ==> ftable[i].ref != 0
  }

  ghost predicate FirstSlot(slots: seq<Option<nat>>, fd: nat) {
    fd < |slots| && slots[fd] == None && forall i :: 0 <= i < fd ==> slots[i] != None
  }

  ghost predicate NoSlot(slots: seq<Option<nat>>) {
    forall i :: 0 <= i < |slots| ==> slots[i] != None
  }

  /** The unused entries. */
  ghost function Spare(ftable: seq<OpenFile>): set<nat> {
    set f: nat | 0 <= f < |ftable| && ftable[f].ref == 0
  }

  lemma SpareUsed(ftable: seq<OpenFile>, f: nat, file: OpenFile)
    requires f < |ftable| && ftable[f].ref == 0 && file.ref != 0
    ensures |Spare(ftable)| == |Spare(ftable[f := file])| + 1
  {
    assert Spare(ftable) == Spare(ftable[f := file]) + {f};
  }

  lemma NoneSpare(ftable: seq<OpenFile>)
    requires NoEntry(ftable)
    ensures |Spare(ftable)| == 0
  {
    assert Spare(ftable) == {};
  }

  // ------------------------------------------------------------------ what an operation leaves alone

  /** Only reference counts differ. */
  ghost predicate OnlyRefs(was: seq<OpenFile>, now: seq<OpenFile>) {
    |was| == |now| && forall f :: 0 <= f < |now| ==> now[f] == was[f].(ref := now[f].ref)
  }

  /** Reference counts went down, and exactly the entries whose last reference went lost their inode. */
  ghost predicate OnlyClosed(was: seq<OpenFile>, now: seq<OpenFile>) {
    |was| == |now| && forall f :: 0 <= f < |now| ==> ClosedTo(was[f], now[f])
  }

  ghost predicate ClosedTo(was: OpenFile, now: OpenFile) {
    && 0 <= now.ref <= was.ref
    && now == was.(ref := now.ref, ip := if now.ref == 0 < was.ref then None else was.ip)
  }

  lemma ClosedMore(a: seq<OpenFile>, b: seq<OpenFile>, c: seq<OpenFile>)
    requires OnlyClosed(a, b) && OnlyClosed(b, c)
    ensures OnlyClosed(a, c)
  {
    forall f | 0 <= f < |c| ensures ClosedTo(a[f], c[f]) {
      assert ClosedTo(a[f], b[f]) && ClosedTo(b[f], c[f]);
    }
  }

  /** Descriptors 0 to `fd - 1` of a new process: each has an entry of its own, unused before, on `tty`. */
  ghost predicate OnTty(slots: seq<Option<nat>>, was: seq<OpenFile>, now: seq<OpenFile>, tty: nat, fd: nat) {
    && |was| == |now| == NFILE && |slots| == PROC_NOFILE
    && (forall i :: 0 <= i < PROC_NOFILE ==> if i < fd then TtySlot(slots[i], was, now, tty, i) else slots[i] == None)
    && (forall f :: 0 <= f < NFILE && was[f].ref != 0 ==> now[f] == was[f])
  }

  ghost predicate TtySlot(slot: Option<nat>, was: seq<OpenFile>, now: seq<OpenFile>, tty: nat, fd: int) {
    && slot.Some? && slot.value < |was| == |now| && was[slot.value].ref == 0
    && now[slot.value] == OpenFile(Some(tty), 0, fd == 0, fd != 0, 1)
  }

  lemma TtyMore(slots: seq<Option<nat>>, was: seq<OpenFile>, now: seq<OpenFile>, tty: nat, fd: nat, f: nat)
    requires OnTty(slots, was, now, tty, fd) && fd < PROC_NOFILE && f < NFILE && now[f].ref == 0
    ensures OnTty(slots[fd := Some(f)], was, now[f := OpenFile(Some(tty), 0, fd == 0, fd != 0, 1)], tty, fd + 1)
  {
    var slots', now' := slots[fd := Some(f)], now[f := OpenFile(Some(tty), 0, fd == 0, fd != 0, 1)];
    assert was[f].ref == 0;
    forall i | 0 <= i < PROC_NOFILE
      ensures if i < fd + 1 then TtySlot(slots'[i], was, now', tty, i) else slots'[i] == None
    {
      assert i < fd ==> TtySlot(slots[i], was, now, tty, i);
    }
  }

  class Files {
    var ftable: seq<OpenFile>
    var ofile: Descriptors

    ghost predicate Valid()
      reads this
    {
      Counted(ftable, ofile)
    }

    constructor ()
      ensures Valid() && ofile == map[]
    {
      ftable := seq(NFILE, _ => OpenFile(None, 0, false, false, 0));
      ofile := map[];
      new;
      assert forall f :: Slots(ofile, f) == {};
    }

    /** `falloc`: the first unused entry. */
    method FAlloc() returns (f: Option<nat>)
      requires |ftable| == NFILE
      modifies this`ftable
      ensures f.None? ==> ftable == old(ftable) && NoEntry(ftable)
      ensures f.Some? ==> FirstEntry(old(ftable), f.value)
                          && ftable == old(ftable)[f.value := OpenFile(None, 0, false, false, 1)]
    {
      var i := 0;
      while i < NFILE
        invariant i <= NFILE && ftable == old(ftable) && forall k :: 0 <= k < i ==> ftable[k].ref != 0
      {
        if ftable[i].ref == 0 {
          ftable := ftable[i := OpenFile(None, 0, false, false, 1)];
          return Some(i);
        }
        i := i + 1;
      }
      f := None;
    }

    /** `fdalloc`: the first empty slot. */
    method FdAlloc(p: nat, f: nat) returns (fd: Option<nat>)
      requires p in ofile && |ofile[p]| == PROC_NOFILE
      modifies this`ofile
      ensures fd.None? ==> ofile == old(ofile) && NoSlot(ofile[p])
      ensures fd.Some? ==> FirstSlot(old(ofile)[p], fd.value)
                           && ofile == SetSlot(old(ofile), p, fd.value, Some(f))
    {
      var i := 0;
      while i < PROC_NOFILE
        invariant i <= PROC_NOFILE && ofile == old(ofile) && forall k :: 0 <= k < i ==> ofile[p][k] != None
      {
        if ofile[p][i] == None {
          ofile := ofile[p := ofile[p][i := Some(f)]];
          return Some(i);
        }
        i := i + 1;
      }
      fd := None;
    }

    /** The end of `vfs_open`, for a file that was found or created: the first unused entry, which no
        descriptor referred to before, in the first free slot.  It fails iff there is no such entry or slot. */
    method Open(p: nat, ip: nat, readable: bool, writable: bool) returns (fd: Option<nat>)
      requires Valid() && p in ofile
      modifies this
      ensures Valid()
      ensures fd.None? <==> NoEntry(old(ftable)) || NoSlot(old(ofile)[p])
      ensures fd.None? ==> ofile == old(ofile) && forall i :: 0 <= i < NFILE && old(ftable)[i].ref != 0 ==> ftable[i] == old(ftable)[i]
      ensures fd.Some? ==>
                && FirstSlot(old(ofile)[p], fd.value)
                && exists f: nat :: FirstEntry(old(ftable), f) && Slots(old(ofile), f) == {}
                     && ftable == old(ftable)[f := OpenFile(Some(ip), 0, readable, writable, 1)]
                     && ofile == SetSlot(old(ofile), p, fd.value, Some(f))
    {
      var a := FAlloc();
      if a == None {
        return None;
      }
      var f := a.value;
      assert EntryOk(old(ftable)[f], old(ofile), f);
      ftable := ftable[f := ftable[f].(ip := Some(ip), off := 0)];
      ftable := ftable[f := ftable[f].(readable := readable)];
      ftable := ftable[f := ftable[f].(writable := writable)];
      fd := FdAlloc(p, f);
      if fd == None {
        ftable := ftable[f := ftable[f].(ref := 0)];
        SpareKeeps(old(ftable), old(ofile), f, ftable[f]);
        assert ftable == old(ftable)[f := ftable[f]];
        return None;
      }
      FillKeeps(old(ftable), old(ofile), p, fd.value, f, OpenFile(Some(ip), 0, readable, writable, 1));
      assert ftable == old(ftable)[f := OpenFile(Some(ip), 0, readable, writable, 1)];
    }

    /** `vfs_close`, with `fclose`. */
    method Close(p: nat, fd: int) returns (ok: bool)
      requires Valid() && p in ofile
      modifies this
      ensures Valid() && ok == (0 <= fd < PROC_NOFILE && old(ofile)[p][fd] != None)
      ensures !ok ==> ftable == old(ftable) && ofile == old(ofile)
      ensures ok ==>
                var f := old(ofile)[p][fd].value;
                && ofile == SetSlot(old(ofile), p, fd, None) && f < NFILE
                && ftable == old(ftable)[f := old(ftable)[f].(ref := old(ftable)[f].ref - 1,
                                              ip := if old(ftable)[f].ref == 1 then None else old(ftable)[f].ip)]
      ensures OnlyClosed(old(ftable), ftable)
    {
      CountsNatural(ftable, ofile);
      if fd < 0 || fd >= PROC_NOFILE || ofile[p][fd] == None {
        return false;
      }
      var f := ofile[p][fd].value;
      NoStaleDescriptor(ftable, ofile, p, fd);
      ofile := ofile[p := ofile[p][fd := None]];
      ftable := ftable[f := ftable[f].(ref := ftable[f].ref - 1)];
      if ftable[f].ref <= 0 {
        ftable := ftable[f := ftable[f].(ip := None)];
      }
      ClearKeeps(old(ftable), old(ofile), p, fd, f, ftable[f]);
      assert ftable == old(ftable)[f := ftable[f]];
      ok := true;
    }

    /** `vfs_dup`: the first free slot for the same entry, so both share its offset.  It fails iff `fd` is
        not open or no slot is free. */
    method Dup(p: nat, fd: int) returns (nfd: Option<nat>)
      requires Valid() && p in ofile
      modifies this
      ensures Valid()
      ensures nfd.Some? <==> 0 <= fd < PROC_NOFILE && old(ofile)[p][fd].Some? && !NoSlot(old(ofile)[p])
      ensures nfd.None? ==> ftable == old(ftable) && ofile == old(ofile)
      ensures nfd.Some? ==>
                && FirstSlot(old(ofile)[p], nfd.value)
                && var f := old(ofile)[p][fd].value;
                   && f < NFILE && ofile == SetSlot(old(ofile), p, nfd.value, Some(f))
                   && ftable == old(ftable)[f := old(ftable)[f].(ref := old(ftable)[f].ref + 1)]
    {
      if fd < 0 || fd >= PROC_NOFILE || ofile[p][fd] == None {
        return None;
      }
      var f := ofile[p][fd].value;
      NoStaleDescriptor(ftable, ofile, p, fd);
      nfd := FdAlloc(p, f);
      if nfd == None {
        return None;
      }
      FillKeeps(old(ftable), old(ofile), p, nfd.value, f, ftable[f].(ref := ftable[f].ref + 1));
      ftable := ftable[f := ftable[f].(ref := ftable[f].ref + 1)];
    }

    /** One turn of the loop of `vfs_fork`. */
    method ShareOne(parent: nat, child: nat, fd: nat, v: Option<nat>)
      requires Valid() && parent in ofile && child in ofile && fd < PROC_NOFILE
      requires ofile[parent][fd] == v && ofile[child][fd] == None
      modifies this
      ensures Valid() && ofile == SetSlot(old(ofile), child, fd, v) && OnlyRefs(old(ftable), ftable)
    {
      ofile := ofile[child := ofile[child][fd := v]];
      if v.Some? {
        NoStaleDescriptor(ftable, old(ofile), parent, fd);
        FillKeeps(ftable, old(ofile), child, fd, v.value, ftable[v.value].(ref := ftable[v.value].ref + 1));
        ftable := ftable[v.value := ftable[v.value].(ref := ftable[v.value].ref + 1)];
      } else {
        assert old(ofile)[child][fd := v] == old(ofile)[child];
        assert ofile == old(ofile);
      }
    }

    /** `vfs_fork`: the child shares every open file of its parent. */
    method Fork(parent: nat, child: nat)
      requires Valid() && parent in ofile && child !in ofile
      modifies this
      ensures Valid() && ofile == old(ofile)[child := old(ofile)[parent]] && OnlyRefs(old(ftable), ftable)
    {
      NewKeeps(ftable, ofile, child);
      ofile := ofile[child := NoFiles()];
      ghost var slots := ofile[parent];
      var fd := 0;
      while fd < PROC_NOFILE
        invariant fd <= PROC_NOFILE && Valid() && child in ofile && |ofile[child]| == PROC_NOFILE
        invariant ofile == old(ofile)[child := ofile[child]] && OnlyRefs(old(ftable), ftable)
        invariant forall i :: 0 <= i < PROC_NOFILE ==> ofile[child][i] == if i < fd then slots[i] else None
      {
        var v := ofile[parent][fd];
        ShareOne(parent, child, fd, v);
        fd := fd + 1;
      }
      assert ofile[child] == slots;
    }

    /** `vfs_close_all` at exit. */
    method CloseAll(p: nat)
      requires Valid() && p in ofile
      modifies this
      ensures Valid() && ofile == old(ofile)[p := NoFiles()] && OnlyClosed(old(ftable), ftable)
    {
      assert OnlyClosed(ftable, ftable) by { CountsNatural(ftable, ofile); }
      var fd := 0;
      while fd < PROC_NOFILE
        invariant fd <= PROC_NOFILE && Valid() && p in ofile && ofile == old(ofile)[p := ofile[p]]
        invariant OnlyClosed(old(ftable), ftable)
        invariant forall i :: 0 <= i < fd ==> ofile[p][i] == None
      {
        ghost var ftable0 := ftable;
        var ok := Close(p, fd);
        ClosedMore(old(ftable), ftable0, ftable);
        fd := fd + 1;
      }
      assert ofile[p] == NoFiles();
    }

    /** The slots of a reaped process, all closed at its exit, go with it. */
    method Forget(p: nat)
      requires Valid() && p in ofile && forall fd :: 0 <= fd < PROC_NOFILE ==> ofile[p][fd] == None
      modifies this`ofile
      ensures Valid() && ofile == old(ofile) - {p}
    {
      GoneKeeps(ftable, ofile, p);
      ofile := ofile - {p};
    }

    /** `vfs_setup_stdio` of a new process: descriptors 0 to 2 on inode `tty`, the first to read and the
        others to write, as far as entries are left. */
    method SetupStdio(p: nat, tty: nat)
      requires Valid() && p !in ofile
      modifies this
      ensures Valid() && p in ofile && ofile == old(ofile)[p := ofile[p]]
      ensures OnTty(ofile[p], old(ftable), ftable, tty, Min(3, |Spare(old(ftable))|))
    {
      NewKeeps(ftable, ofile, p);
      ofile := ofile[p := NoFiles()];
      var fd := 0;
      while fd < 3
        invariant fd <= 3 && Valid() && p in ofile && ofile == old(ofile)[p := ofile[p]]
        invariant OnTty(ofile[p], old(ftable), ftable, tty, fd) && |Spare(ftable)| == |Spare(old(ftable))| - fd
      {
        var ok := SetupOne(p, tty, fd, old(ftable));
        if !ok {
          return;
        }
        fd := fd + 1;
      }
    }

    /** One turn of the loop of `vfs_setup_stdio`, begun with the table `was`. */
    method SetupOne(p: nat, tty: nat, fd: nat, ghost was: seq<OpenFile>) returns (ok: bool)
      requires Valid() && p in ofile && fd < PROC_NOFILE && OnTty(ofile[p], was, ftable, tty, fd)
      modifies this
      ensures Valid() && p in ofile && ofile == old(ofile)[p := ofile[p]] && ok == (Spare(old(ftable)) != {})
      ensures OnTty(ofile[p], was, ftable, tty, if ok then fd + 1 else fd)
      ensures |Spare(ftable)| == |Spare(old(ftable))| - if ok then 1 else 0
    {
      var a := FAlloc();
      if a == None {
        NoneSpare(ftable);
        return false;
      }
      var f := a.value;
      ghost var file := OpenFile(Some(tty), 0, fd == 0, fd != 0, 1);
      assert f in Spare(old(ftable));
      assert EntryOk(old(ftable)[f], ofile, f);
      FillKeeps(old(ftable), ofile, p, fd, f, file);
      TtyMore(ofile[p], was, old(ftable), tty, fd, f);
      SpareUsed(old(ftable), f, file);
      ftable := ftable[f := ftable[f].(ip := Some(tty), off := 0, readable := fd == 0, writable := fd != 0)];
      assert ftable == old(ftable)[f := file];
      ofile := ofile[p := ofile[p][fd := Some(f)]];
      ok := true;
    }
  }
}
