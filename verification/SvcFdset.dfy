/** Registered descriptors in three views: libsrc/svc_fdset.c (the one global set) and the transport table of
    libsrc/svc.c. */
module SvcFdset {

  // ----- poll slots

  /** The descriptors in the slots; -1 marks a free one. */
  function Live(p: seq<int>): set<int> {
    set i | 0 <= i < |p| && p[i] != -1 :: p[i]
  }

  predicate NoTwice(p: seq<int>) {
    forall i, j :: 0 <= i < j < |p| && p[i] != -1 ==> p[i] != p[j]
  }

  /** `used` is one past the last live slot. */
  predicate EndsAt(p: seq<int>, used: int) {
    && 0 <= used <= |p|
    && (used > 0 ==> p[used - 1] != -1)
    && forall i :: used <= i < |p| ==> p[i] == -1
  }

  lemma LiveAfterAdd(p: seq<int>, i: nat, fd: int)
    requires i < |p| && p[i] == -1 && fd != -1
    ensures Live(p[i := fd]) == Live(p) + {fd}
  {
    var q := p[i := fd];
    assert q[i] == fd;
    forall x | x in Live(p)
      ensures x in Live(q)
    {
      var j :| 0 <= j < |p| && p[j] != -1 && p[j] == x;
      assert q[j] == x;
    }
  }

  lemma LiveAfterDelete(p: seq<int>, i: nat)
    requires i < |p| && p[i] != -1 && NoTwice(p)
    ensures Live(p[i := -1]) == Live(p) - {p[i]}
  {
    var q := p[i := -1];
    forall x | x in Live(p) && x != p[i]
      ensures x in Live(q)
    {
      var j :| 0 <= j < |p| && p[j] != -1 && p[j] == x;
      assert q[j] == x;
    }
  }

  lemma LiveAfterGrowth(p: seq<int>, q: seq<int>)
    requires |p| <= |q| && q[..|p|] == p && forall i :: |p| <= i < |q| ==> q[i] == -1
    ensures Live(q) == Live(p)
  {}

  /** m is the largest member, or -1 if there is none. */
  predicate IsMax(s: set<int>, m: int) {
    (m == -1 || m in s) && forall x :: x in s ==> x <= m
  }

  /** m is the largest member up to k, or -1 if there is none; below 0 there is nothing to look for. */
  predicate IsTop(s: set<int>, k: int, m: int) {
    if k < 0 then m == k else (m == -1 || (m in s && m <= k)) && forall x :: x in s && x <= k ==> x <= m
  }

  predicate HasRoom(s: set<int>, size: nat) {
    |s| < size
  }

  predicate Below(s: set<int>, k: int) {
    k >= -1 && forall x :: x in s ==> 0 <= x <= k
  }

  lemma TopIsMax(s: set<int>, k: int, m: int)
    requires Below(s, k) && IsTop(s, k, m)
    ensures IsMax(s, m) && Below(s, m)
  {}

  /** Going down through more members first makes no difference. */
  lemma TopTwice(s: set<int>, r: set<int>, k: int, m: int, n: int)
    requires s <= r && (forall x :: x in r ==> x >= 0) && IsTop(r, k, m) && IsTop(s, m, n)
    ensures IsTop(s, k, n)
  {}

  /** struct svc_fdset. */
  class FdSet {
    const FD_SETSIZE: nat
    var fdset: set<int>
    var fdmax: int
    var fdsize: nat
    var fdp: array<int>
    var fdused: nat

    constructor (setsize: nat)
      requires setsize > 0
      ensures Slots() && FD_SETSIZE == setsize && fdset == {} && fresh(fdp) && fdsize == 0 && fdmax == 0
    {
      FD_SETSIZE := setsize;
      fdset, fdmax, fdsize, fdused := {}, 0, 0, 0;
      fdp := new int[0];
    }

    /** The poll slots and the set hold the same descriptors, each once. */
    ghost predicate Slots()
      reads `fdset, `fdp, `fdused, fdp
    {
      && FD_SETSIZE > 0 && NoTwice(fdp[..]) && EndsAt(fdp[..], fdused) && Live(fdp[..]) == fdset
      && forall x :: x in fdset ==> x >= 0
    }

    /** svc_fdset_sanitize: down to the largest member that is not above. */
    method Sanitize()
      requires forall x :: x in fdset ==> x >= 0
      modifies this`fdmax
      ensures IsTop(fdset, old(fdmax), fdmax)
    {
      while fdmax >= 0 && fdmax !in fdset
        invariant if old(fdmax) < 0 then fdmax == old(fdmax) else -1 <= fdmax <= old(fdmax)
        invariant forall x :: x in fdset && x <= old(fdmax) ==> x <= fdmax
      {
        fdmax := fdmax - 1;
      }
    }

    /** svc_fdset_getmax. */
    method GetMax()
      requires Slots()
      modifies this`fdmax
      ensures IsTop(fdset, old(fdmax), fdmax)
    {
      Sanitize();
    }

    /** svc_fdset_getsize, with svc_fdset_resize: room for fd, in units; the first time, one unit whatever fd is. */
    method GetSize(fd: nat) returns (size: nat)
      requires FD_SETSIZE > 0
      modifies this`fdsize
      ensures size == fdsize > 0 && fdsize >= old(fdsize)
      ensures size >= fd <==> old(fdsize) > 0 || fd <= FD_SETSIZE
      ensures old(fdsize) >= fd && old(fdsize) > 0 ==> size == old(fdsize)
    {
      if fdsize == 0 {
        fdsize := FD_SETSIZE;
        return fdsize;
      }
      while fd > fdsize
        invariant fdsize >= old(fdsize) && (old(fdsize) >= fd ==> fdsize == old(fdsize))
        decreases fd - fdsize
      {
        fdsize := fdsize + FD_SETSIZE;
      }
      size := fdsize;
    }

    /** n more free slots. */
    method Grow(n: nat)
      modifies this`fdp
      ensures fresh(fdp) && fdp.Length == old(fdp.Length) + n && fdp[..old(fdp.Length)] == old(fdp[..])
      ensures forall i :: old(fdp.Length) <= i < fdp.Length ==> fdp[i] == -1
    {
      var p := new int[fdp.Length + n];
      forall i | 0 <= i < p.Length { p[i] := if i < fdp.Length then fdp[i] else -1; }
      assert p[..fdp.Length] == fdp[..];
      fdp := p;
    }

    /** svc_pollfd_alloc: slots exist. */
    method Alloc()
      requires Slots()
      modifies this`fdp
      ensures Slots() && fdp.Length > 0 && (fdp == old(fdp) || fresh(fdp))
    {
      if fdp.Length == 0 {
        Grow(FD_SETSIZE);
        LiveAfterGrowth(old(fdp[..]), fdp[..]);
      }
    }

    method FreeSlot() returns (i: nat)
      ensures i <= fdp.Length && (i < fdp.Length ==> fdp[i] == -1) && forall j :: 0 <= j < i ==> fdp[j] != -1
    {
      i := 0;
      while i < fdp.Length && fdp[i] != -1
        invariant i <= fdp.Length && forall j :: 0 <= j < i ==> fdp[j] != -1
      {
        i := i + 1;
      }
    }

    /** svc_pollfd_add: the first free slot, or the first of new ones; a second slot for a descriptor that has one. */
    method Add(fd: int)
      requires FD_SETSIZE > 0 && NoTwice(fdp[..]) && EndsAt(fdp[..], fdused) && fd >= 0
      requires fdp.Length > 0
      modifies this`fdp, this`fdused, fdp
      ensures NoTwice(fdp[..]) <==> fd !in old(Live(fdp[..]))
      ensures EndsAt(fdp[..], fdused) && Live(fdp[..]) == old(Live(fdp[..])) + {fd}
      ensures fdp == old(fdp) || fresh(fdp)
    {
      var i := FreeSlot();
      ghost var p := fdp[..];
      if i == fdp.Length {
        Grow(FD_SETSIZE);
        LiveAfterGrowth(p, fdp[..]);
        GrownIsFine(p, fdp[..]);
      }
      p := fdp[..];
      LiveAfterAdd(p, i, fd);
      if i >= fdused { fdused := i + 1; }
      fdp[i] := fd;
      assert fdp[..] == p[i := fd];
      AddedOnce(p, i, fd);
    }

    /** svc_pollfd_del: the slot becomes free; if it was the last live one, fdused goes down to the one before it. */
    method Delete(fd: int) returns (found: bool)
      requires NoTwice(fdp[..]) && EndsAt(fdp[..], fdused) && fd >= 0
      modifies this`fdused, fdp
      ensures NoTwice(fdp[..]) && EndsAt(fdp[..], fdused) && found == (fd in old(Live(fdp[..])))
      ensures Live(fdp[..]) == old(Live(fdp[..])) - {fd}
    {
      var i := 0;
      while i < fdp.Length && fdp[i] != fd
        invariant 0 <= i <= fdp.Length && forall j :: 0 <= j < i ==> fdp[j] != fd
      {
        i := i + 1;
      }
      if i == fdp.Length {
        return false;
      }
      ghost var p := fdp[..];
      LiveAfterDelete(p, i);
      assert p[i] in Live(p);
      fdp[i] := -1;
      assert fdp[..] == p[i := -1];
      found := true;
      if i != fdused - 1 { return; }
      while i >= 0 && fdp[i] == -1
        invariant -1 <= i < fdused && forall j :: i < j < fdp.Length ==> fdp[j] == -1
      {
        i := i - 1;
      }
      fdused := i + 1;
    }

    /** svc_fdset_set: fails when the set is full. A descriptor that is in the set gets a second slot. */
    method Set(fd: int) returns (ok: bool)
      requires Slots() && fd >= 0
      modifies this`fdset, this`fdmax, this`fdp, this`fdused, fdp
      ensures Slots() <==> !ok || fd !in old(fdset)
      ensures NoTwice(fdp[..]) <==> !ok || fd !in old(fdset)
      ensures Live(fdp[..]) == fdset && ok == HasRoom(old(fdset), FD_SETSIZE) && (fdp == old(fdp) || fresh(fdp))
      ensures fdset == old(fdset) + (if ok then {fd} else {})
      ensures if ok then IsTop(fdset, if fd > old(fdmax) then fd else old(fdmax), fdmax) else fdmax == old(fdmax)
    {
      hide NoTwice, EndsAt, Live, HasRoom;
      if !HasRoom(fdset, FD_SETSIZE) { return false; }
      Alloc();
      Add(fd);
      fdset := fdset + {fd};
      if fd > fdmax { fdmax := fd; }
      Sanitize();
      ok := true;
    }

    /** svc_fdset_clr. */
    method Clr(fd: int) returns (found: bool)
      requires Slots() && fd >= 0
      modifies this`fdset, this`fdmax, this`fdp, this`fdused, fdp
      ensures Slots() && found == (fd in old(fdset)) && fdset == old(fdset) - {fd} && IsTop(fdset, old(fdmax), fdmax)
      ensures fdp == old(fdp) || fresh(fdp)
    {
      hide NoTwice, EndsAt, Live;
      Alloc();
      found := Delete(fd);
      fdset := fdset - {fd};
      Sanitize();
    }
  }

  lemma GrownIsFine(p: seq<int>, q: seq<int>)
    requires |p| <= |q| && q[..|p|] == p && NoTwice(p) && forall i :: |p| <= i < |q| ==> q[i] == -1
    ensures NoTwice(q) && forall used :: EndsAt(p, used) ==> EndsAt(q, used)
  {}

  lemma AddedOnce(p: seq<int>, i: nat, fd: int)
    requires i < |p| && p[i] == -1 && fd >= 0 && NoTwice(p)
    ensures NoTwice(p[i := fd]) <==> fd !in Live(p)
  {
    var q := p[i := fd];
    if fd in Live(p) {
      var j :| 0 <= j < |p| && p[j] == fd;
      assert q[j] == fd && q[i] == fd;
    }
  }

  // ----- transports

  class Xprt {
    const fd: int

    constructor (fd: int)
      ensures this.fd == fd
    {
      this.fd := fd;
    }
  }

  /** __svc_xports with its extra slot for -1: the transport of fd is in slot fd + 1. */
  class Registry {
    const fds: FdSet
    var xports: array<Xprt?>

    constructor (setsize: nat)
      requires setsize > 0
      ensures Valid() && Agree() && fresh(fds) && fresh(fds.fdp) && fresh(xports)
      ensures fds.FD_SETSIZE == setsize && Registered() == {} && Raw() == null && fds.fdsize == 0 && fds.fdmax == 0
    {
      fds := new FdSet(setsize);
      xports := new Xprt?[0];
    }

    function Maxxports(): int
      reads this
    {
      xports.Length - 1
    }

    /** The transport in the slot of fd. */
    ghost function At(fd: int): Xprt?
      reads this, xports
    {
      if -1 <= fd < Maxxports() then xports[fd + 1] else null
    }

    ghost function Raw(): Xprt?
      reads this, xports
    {
      At(-1)
    }

    /** The descriptors with a transport. */
    ghost function Registered(): set<int>
      reads this, xports
    {
      set fd | 0 <= fd < Maxxports() && At(fd) != null
    }

    /** Every transport is in the slot of its descriptor. */
    ghost predicate Table()
      reads this, xports, fds`fdsize
    {
      Maxxports() <= fds.fdsize && forall fd :: -1 <= fd < Maxxports() && At(fd) != null ==> At(fd).fd == fd
    }

    /** Every descriptor in the set has a transport. After a failed registration there is a transport without one. */
    ghost predicate Valid()
      reads this, fds, fds.fdp, xports
    {
      fds.Slots() && Table() && fds.fdset <= Registered()
    }

    /** The transports, the set and the poll slots describe the same descriptors. */
    ghost predicate Agree()
      reads this, fds, fds.fdp, xports
    {
      Registered() == fds.fdset == Live(fds.fdp[..])
    }

    lemma SameRegistered(before: set<int>)
      requires forall fd :: fd in before <==> fd >= 0 && At(fd) != null
      ensures Registered() == before
    {}

    lemma RegisteredMeans()
      ensures forall fd :: fd in Registered() <==> fd >= 0 && At(fd) != null
    {}

    /** xprt_alloc: a slot for sock, unless it is below -1. */
    method Alloc(sock: int) returns (ok: bool)
      requires Table() && fds.FD_SETSIZE > 0
      modifies this`xports, fds`fdsize
      ensures Table() && ok == (sock >= -1) && (fresh(xports) || xports == old(xports))
      ensures ok ==> fds.fdsize > 0 && (sock < Maxxports() <==> old(fds.fdsize) > 0 || sock + 1 <= fds.FD_SETSIZE)
      ensures !ok ==> xports == old(xports) && fds.fdsize == old(fds.fdsize)
      ensures forall fd :: At(fd) == old(At(fd))
      ensures Registered() == old(Registered())
    {
      if sock + 1 < 0 { return false; }
      ok := true;
      RegisteredMeans();
      ghost var before := Registered();
      var newmax := fds.GetSize(sock + 1);
      if xports.Length > 0 && newmax < Maxxports() { return; }
      var a := new Xprt?[newmax + 1];
      forall i | 0 <= i < a.Length { a[i] := if i < xports.Length then xports[i] else null; }
      xports := a;
      forall fd
        ensures At(fd) == old(At(fd))
      {}
      SameRegistered(before);
    }

    /** The slot of fd is set; the others stay. */
    method Put(fd: int, xprt: Xprt?)
      requires Table() && -1 <= fd < Maxxports() && (xprt != null ==> xprt.fd == fd)
      modifies xports
      ensures Table() && forall x :: At(x) == if x == fd then xprt else old(At(x))
      ensures Registered() == if fd == -1 then old(Registered())
                              else if xprt == null then old(Registered()) - {fd} else old(Registered()) + {fd}
    {
      RegisteredMeans();
      ghost var before := Registered();
      xports[fd + 1] := xprt;
      forall x
        ensures At(x) == if x == fd then xprt else old(At(x))
      {}
      SameRegistered(if fd == -1 then before else if xprt == null then before - {fd} else before + {fd});
    }

    /** xprt_register. A full set makes it fail, but only after the transport has been put into the table: then the
        three views disagree. A descriptor that is in the set already gets a second poll slot. */
    method Register(xprt: Xprt) returns (ok: bool)
      requires Valid() && (fds.fdsize == 0 ==> xprt.fd + 1 <= fds.FD_SETSIZE)
      modifies this`xports, xports, fds, fds.fdp
      ensures ok == (xprt.fd == -1 || (xprt.fd >= 0 && HasRoom(old(fds.fdset), fds.FD_SETSIZE)))
      ensures Valid() <==> !ok || xprt.fd !in old(fds.fdset)
      ensures NoTwice(fds.fdp[..]) <==> !ok || xprt.fd !in old(fds.fdset)
      ensures forall fd :: At(fd) == if fd == xprt.fd >= -1 then xprt else old(At(fd))
      ensures fds.fdset == old(fds.fdset) + (if ok && xprt.fd != -1 then {xprt.fd} else {})
      ensures Agree() <==> old(Registered()) + (if xprt.fd >= 0 then {xprt.fd} else {}) == fds.fdset
      ensures old(At(xprt.fd)) == null && xprt.fd >= -1 ==> (Agree() <==> ok && old(Agree()))
      ensures if ok && xprt.fd != -1 then IsTop(fds.fdset, if xprt.fd > old(fds.fdmax) then xprt.fd else old(fds.fdmax), fds.fdmax)
              else fds.fdmax == old(fds.fdmax)
      ensures (fresh(xports) || xports == old(xports)) && (fresh(fds.fdp) || fds.fdp == old(fds.fdp))
      ensures if xprt.fd >= -1 then fds.fdsize > 0 else fds.fdsize == old(fds.fdsize)
    {
      hide NoTwice, EndsAt, Live, Table, IsTop, At, Registered, HasRoom;
      var sock := xprt.fd;
      assert sock >= 0 && At(sock) == null ==> sock !in Registered() by { RegisteredMeans(); }
      ghost var r, f := Registered(), fds.fdset;
      ok := Alloc(sock);
      if !ok { return; }
      Put(sock, xprt);
      if sock != -1 {
        ok := fds.Set(sock);
        if sock !in r { SetsAgree(r, f, sock, ok); }
      }
    }

    lemma SetsAgree(r: set<int>, f: set<int>, fd: int, ok: bool)
      requires f <= r && fd !in r
      ensures f + (if ok then {fd} else {}) <= r + {fd}
      ensures r + {fd} == f + (if ok then {fd} else {}) <==> ok && r == f
    {
      if r + {fd} == f + (if ok then {fd} else {}) {
        assert fd in r + {fd};
        assert r == (r + {fd}) - {fd} && f == (f + {fd}) - {fd};
      }
    }

    /** Down to the largest descriptor below fdmax that has a transport. */
    method Lower()
      requires Table() && fds.fdmax <= Maxxports()
      modifies fds`fdmax
      ensures IsTop(Registered(), old(fds.fdmax) - 1, fds.fdmax)
    {
      fds.fdmax := fds.fdmax - 1;
      while fds.fdmax >= 0 && xports[fds.fdmax + 1] == null
        invariant if old(fds.fdmax) <= 0 then fds.fdmax == old(fds.fdmax) - 1 else -1 <= fds.fdmax < old(fds.fdmax)
        invariant forall x :: fds.fdmax < x < old(fds.fdmax) ==> At(x) == null
        decreases fds.fdmax
      {
        fds.fdmax := fds.fdmax - 1;
      }
      RegisteredMeans();
    }

    /** __xprt_do_unregister. A transport that is not in its slot is left alone. A registered one goes from all three
        views; fdmax was m, and if the descriptor is not below m, fdmax goes below m. */
    method Unregister(xprt: Xprt) returns (ghost m: int)
      requires Valid() && xprt.fd >= -1
      modifies xports, fds, fds.fdp
      ensures Valid() && (fresh(fds.fdp) || fds.fdp == old(fds.fdp)) && fds.fdsize == old(fds.fdsize)
      ensures forall fd :: At(fd) == if fd == xprt.fd && old(At(fd)) == xprt then null else old(At(fd))
      ensures old(At(xprt.fd)) != xprt || xprt.fd == -1 ==>
        fds.fdset == old(fds.fdset) && fds.fdmax == old(fds.fdmax) && (Agree() <==> old(Agree()))
      ensures old(At(xprt.fd)) == xprt && xprt.fd != -1 ==>
        && fds.fdset == old(fds.fdset) - {xprt.fd}
        && (Agree() <==> old(Registered()) - {xprt.fd} == fds.fdset)
        && IsTop(old(fds.fdset), old(fds.fdmax), m)
        && (if xprt.fd < m then fds.fdmax == m else IsTop(fds.fdset, m - 1, fds.fdmax))
    {
      hide NoTwice, EndsAt, Live;
      var sock := xprt.fd;
      m := fds.fdmax;
      if sock >= Maxxports() || xports[sock + 1] != xprt { return; }
      RegisteredMeans();
      Put(sock, null);
      if sock == -1 { return; }
      fds.GetMax();
      m := fds.fdmax;
      if sock >= fds.fdmax {
        Lower();
      }
      ghost var k := fds.fdmax;
      var found := fds.Clr(sock);
      assert sock < m ==> m in fds.fdset;
      if sock >= m { TopTwice(fds.fdset, Registered(), m - 1, k, fds.fdmax); }
    }

    /** When no member was above fdmax, fdmax is exact afterwards if and only if the descriptor was in the set or below
        another one: not after unregistering a transport that a failed registration has left above the largest member. */
    lemma ExactUnless(before: set<int>, fdmax: int, fd: int, m: int, after: int)
      requires Below(before, fdmax) && fd >= 0 && IsTop(before, fdmax, m)
      requires if fd < m then after == m else IsTop(before - {fd}, m - 1, after)
      ensures IsMax(before - {fd}, after) <==> fd in before || fd < m
      ensures m == -1 ==> after == -2
    {
      assert m in before && m != fd ==> m in before - {fd};
      assert forall x :: x in before - {fd} ==> x in before && x != fd;
    }
  }

  /** When no member was above fdmax, it is exact after a registration. */
  lemma ExactAfterAdding(before: set<int>, fdmax: int, fd: int, after: int)
    requires Below(before, fdmax) && fd >= 0 && IsTop(before + {fd}, if fd > fdmax then fd else fdmax, after)
    ensures IsMax(before + {fd}, after) && Below(before + {fd}, after)
  {
    TopIsMax(before + {fd}, if fd > fdmax then fd else fdmax, after);
  }

  /** With room for one descriptor, the second registration fails and leaves the views in disagreement. */
  method FullSetDisagrees() returns (r: Registry, left: Xprt)
    ensures fresh(r) && fresh(r.fds) && fresh(r.fds.fdp) && fresh(r.xports)
    ensures r.Valid() && !r.Agree() && r.fds.fdset == {0} && r.fds.fdmax == 0
    ensures left.fd == 1 && r.At(1) == left && r.Registered() == {0, 1}
  {
    hide NoTwice, EndsAt, Live, HasRoom;
    r := new Registry(1);
    var a := new Xprt(0);
    left := new Xprt(1);
    r.RegisteredMeans();
    RoomForOne({});
    var first := r.Register(a);
    r.RegisteredMeans();
    RoomForOne(r.fds.fdset);
    var second := r.Register(left);
    r.RegisteredMeans();
  }

  lemma RoomForOne(s: set<int>)
    ensures HasRoom({}, 1) && (0 in s ==> !HasRoom(s, 1))
  {
    if 0 in s { assert |s| == |s - {0}| + 1; }
  }

  /** Unregistering what that registration left behind brings the views together again, but fdmax says that there is
      none while a descriptor is registered. */
  method LeftoverLowersMax() returns (r: Registry)
    ensures fresh(r) && r.Valid() && r.Agree() && r.Registered() == {0} && r.fds.fdmax == -1
  {
    hide NoTwice, EndsAt, Live;
    var left;
    r, left := FullSetDisagrees();
    ghost var m := r.Unregister(left);
    r.RegisteredMeans();
  }

  /** Registering a descriptor twice succeeds, and leaves it in two poll slots. */
  method RegisteredTwice() returns (r: Registry)
    ensures fresh(r) && r.Agree() && r.Registered() == {0} && !NoTwice(r.fds.fdp[..])
  {
    r := new Registry(2);
    hide NoTwice, EndsAt, Live;
    r.RegisteredMeans();
    var first := new Xprt(0);
    var second := new Xprt(0);
    Room(r.fds.fdset, 2);
    var ok := r.Register(first);
    r.RegisteredMeans();
    Room(r.fds.fdset, 2);
    ok := r.Register(second);
    r.RegisteredMeans();
  }

  lemma Room(s: set<int>, size: nat)
    requires s <= {0} && size == 2
    ensures HasRoom(s, size)
  {
    assert s == {} || s == {0};
  }

  // ----- any sequence of registrations and removals

  datatype Op = Add(fd: int) | Remove(fd: int)

  /** The descriptors registered after the first n operations. */
  function Members(ops: seq<Op>, n: nat): set<int>
    requires n <= |ops|
  {
    if n == 0 then {}
    else if ops[n - 1].Add? then Members(ops, n - 1) + {ops[n - 1].fd} else Members(ops, n - 1) - {ops[n - 1].fd}
  }

  predicate NoneAdded(ops: seq<Op>, n: nat)
    requires n <= |ops|
  {
    forall i :: 0 <= i < n ==> ops[i].Remove?
  }

  /** No descriptor is added while it is registered, and the first one fits into one unit. */
  predicate Lawful(ops: seq<Op>, setsize: nat) {
    forall i :: 0 <= i < |ops| ==>
      ops[i].fd >= 0 && (ops[i].Add? ==> ops[i].fd !in Members(ops, i) && (NoneAdded(ops, i) ==> ops[i].fd < setsize))
  }

  /** The three views are the operations' members, and fdmax is the largest of them or -1; it is 0 to begin with. */
  ghost predicate Exact(r: Registry, ops: seq<Op>, n: nat)
    requires n <= |ops|
    reads r, r.fds, r.fds.fdp, r.xports
  {
    && r.Valid() && r.Agree() && r.Registered() == Members(ops, n)
    && (if NoneAdded(ops, n) then r.fds.fdmax == 0 else IsMax(r.fds.fdset, r.fds.fdmax))
  }

  lemma NoneYet(ops: seq<Op>, n: nat)
    requires n <= |ops| && NoneAdded(ops, n)
    ensures Members(ops, n) == {}
  {
    if n > 0 { NoneYet(ops, n - 1); }
  }

  /** The transport registered for fd, or one that is not registered. */
  method TransportOf(r: Registry, fd: int) returns (x: Xprt)
    requires r.Table() && fd >= 0
    ensures x.fd == fd && (r.At(fd) == x || (r.At(fd) == null && fresh(x)))
  {
    if fd < r.Maxxports() && r.xports[fd + 1] != null {
      x := r.xports[fd + 1];
      assert r.At(fd) == x;
    } else {
      x := new Xprt(fd);
    }
  }

  method Perform(r: Registry, ops: seq<Op>, i: nat) returns (ok: bool)
    requires i < |ops| && Lawful(ops, r.fds.FD_SETSIZE) && Exact(r, ops, i)
    requires r.fds.fdsize == 0 ==> NoneAdded(ops, i)
    modifies r, r.xports, r.fds, r.fds.fdp
    ensures ok == (ops[i].Remove? || HasRoom(Members(ops, i), r.fds.FD_SETSIZE))
    ensures ok ==> Exact(r, ops, i + 1) && (r.fds.fdsize == 0 ==> NoneAdded(ops, i + 1))
    ensures (fresh(r.xports) || r.xports == old(r.xports)) && (fresh(r.fds.fdp) || r.fds.fdp == old(r.fds.fdp))
  {
    hide NoTwice, EndsAt, Live, HasRoom;
    var fd := ops[i].fd;
    ghost var before, fdmax := r.fds.fdset, r.fds.fdmax;
    if NoneAdded(ops, i) { NoneYet(ops, i); }
    r.RegisteredMeans();
    if ops[i].Add? {
      var x := new Xprt(fd);
      ok := r.Register(x);
      if ok { ExactAfterAdding(before, fdmax, fd, r.fds.fdmax); }
    } else {
      var x := TransportOf(r, fd);
      ghost var m := r.Unregister(x);
      if fd in before { r.ExactUnless(before, fdmax, fd, m, r.fds.fdmax); }
      ok := true;
    }
    r.RegisteredMeans();
  }

  /** The first n operations never add a descriptor to a full set. */
  predicate Fitted(ops: seq<Op>, n: nat, setsize: nat)
    requires n <= |ops|
  {
    forall i :: 0 <= i < n && ops[i].Add? ==> |Members(ops, i)| < setsize
  }

  lemma NoneToFit(ops: seq<Op>, setsize: nat)
    ensures Fitted(ops, 0, setsize)
  {}

  lemma FittedMore(ops: seq<Op>, n: nat, setsize: nat)
    requires n < |ops| && Fitted(ops, n, setsize)
    ensures Fitted(ops, n + 1, setsize) <==> ops[n].Remove? || HasRoom(Members(ops, n), setsize)
  {}

  method EmptyRegistry(ghost ops: seq<Op>, setsize: nat) returns (r: Registry)
    requires setsize > 0
    ensures fresh(r) && fresh(r.fds) && fresh(r.fds.fdp) && fresh(r.xports)
    ensures r.fds.FD_SETSIZE == setsize && Exact(r, ops, 0) && NoneAdded(ops, 0)
  {
    hide NoTwice, EndsAt, Live;
    r := new Registry(setsize);
  }

  /** A registry after any operations: exact after those before the first that finds the set full. */
  method PerformAll(ops: seq<Op>, setsize: nat) returns (r: Registry, n: nat)
    requires setsize > 0 && Lawful(ops, setsize)
    ensures n <= |ops| && Fitted(ops, n, setsize) && (n < |ops| ==> !Fitted(ops, n + 1, setsize))
    ensures n == |ops| ==> Exact(r, ops, n)
  {
    hide Lawful, HasRoom, Fitted, Exact, Members;
    r := EmptyRegistry(ops, setsize);
    n := 0;
    NoneToFit(ops, setsize);
    while n < |ops|
      invariant n <= |ops| && fresh(r) && fresh(r.fds) && fresh(r.fds.fdp) && fresh(r.xports)
      invariant r.fds.FD_SETSIZE == setsize && Exact(r, ops, n) && (r.fds.fdsize == 0 ==> NoneAdded(ops, n))
      invariant Fitted(ops, n, setsize)
    {
      FittedMore(ops, n, setsize);
      var ok := Perform(r, ops, n);
      if !ok { return; }
      n := n + 1;
    }
  }
}
