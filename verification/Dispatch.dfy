/** Registered services and dispatch: libsrc/svc.c. */
module Dispatch {
  import opened Basics
  import opened Xdr

  /** A service: `dispatch` identifies its routine. */
  datatype Callout = Callout(prog: U32, vers: U32, dispatch: nat, netid: Option<string>)

  /** Entry s answers a search with this network identifier; a missing one matches all. */
  predicate Matches(s: Callout, prog: U32, vers: U32, netid: Option<string>) {
    s.prog == prog && s.vers == vers && (netid.None? || s.netid.None? || netid == s.netid)
  }

  predicate NoMatch(l: seq<Callout>, prog: U32, vers: U32, netid: Option<string>) {
    forall i :: 0 <= i < |l| ==> !Matches(l[i], prog, vers, netid)
  }

  /** No entry shadows another one. */
  predicate Apart(l: seq<Callout>) {
    forall i, j :: 0 <= i < j < |l| ==> !Matches(l[j], l[i].prog, l[i].vers, l[i].netid)
  }

  /** The entries of other programs or versions, in order. */
  function Without(l: seq<Callout>, prog: U32, vers: U32): (r: seq<Callout>)
    ensures |r| <= |l|
    ensures forall i :: 0 <= i < |r| ==> r[i] in l && !(r[i].prog == prog && r[i].vers == vers)
    ensures forall x :: x in l && !(x.prog == prog && x.vers == vers) ==> x in r
  {
    if l == [] then []
    else
      var r := Without(l[1..], prog, vers);
      if l[0].prog == prog && l[0].vers == vers then r else [l[0]] + r
  }

  lemma ApartTail(l: seq<Callout>)
    requires Apart(l) && l != []
    ensures Apart(l[1..]) && forall x :: x in l[1..] ==> !Matches(x, l[0].prog, l[0].vers, l[0].netid)
  {}

  lemma ApartCons(a: Callout, l: seq<Callout>)
    requires Apart(l) && forall x :: x in l ==> !Matches(x, a.prog, a.vers, a.netid)
    ensures Apart([a] + l)
  {}

  lemma {:induction false} WithoutKeeps(l: seq<Callout>, prog: U32, vers: U32)
    requires Apart(l)
    ensures Apart(Without(l, prog, vers))
  {
    if l != [] {
      ApartTail(l);
      WithoutKeeps(l[1..], prog, vers);
      if !(l[0].prog == prog && l[0].vers == vers) { ApartCons(l[0], Without(l[1..], prog, vers)); }
    }
  }

  lemma {:induction false} WithoutNothing(l: seq<Callout>, prog: U32, vers: U32)
    requires NoMatch(l, prog, vers, None)
    ensures Without(l, prog, vers) == l
  {
    if l != [] { WithoutNothing(l[1..], prog, vers); }
  }

  /** Taking out an entry that is to go anyway. */
  lemma {:induction false} WithoutRemoved(l: seq<Callout>, i: nat, prog: U32, vers: U32)
    requires i < |l| && l[i].prog == prog && l[i].vers == vers
    ensures Without(l[..i] + l[i + 1..], prog, vers) == Without(l, prog, vers)
  {
    var m := l[..i] + l[i + 1..];
    if i == 0 {
      assert m == l[1..];
    } else {
      assert m[1..] == l[1..][..i - 1] + l[1..][i..];
      WithoutRemoved(l[1..], i - 1, prog, vers);
    }
  }

  function Versions(l: seq<Callout>, prog: U32): set<U32> {
    set s | s in l && s.prog == prog :: s.vers
  }

  class Callouts {
    var head: seq<Callout>

    constructor ()
      ensures head == []
    {
      head := [];
    }

    /** svc_find: the first match, or the length of the list. */
    method Find(prog: U32, vers: U32, netid: Option<string>) returns (s: nat)
      ensures s <= |head| && NoMatch(head[..s], prog, vers, netid)
      ensures s < |head| ==> Matches(head[s], prog, vers, netid)
      ensures s < |head| ==>
        head[s].prog == prog && head[s].vers == vers && (netid == None || head[s].netid == None || head[s].netid == netid)
      ensures forall i :: 0 <= i < s && head[i].prog == prog && head[i].vers == vers ==>
        netid != None && head[i].netid != None && head[i].netid != netid
    {
      s := 0;
      while s < |head| && !Matches(head[s], prog, vers, netid)
        invariant s <= |head| && NoMatch(head[..s], prog, vers, netid)
      {
        s := s + 1;
      }
    }

    /** svc_reg, without the call to the local binder. */
    method Reg(prog: U32, vers: U32, dispatch: nat, netid: Option<string>) returns (ok: bool)
      requires Apart(head)
      modifies this
      ensures Apart(head)
      ensures NoMatch(old(head), prog, vers, netid) ==> ok && head == [Callout(prog, vers, dispatch, netid)] + old(head)
      ensures !NoMatch(old(head), prog, vers, netid) ==> head == old(head)
      ensures !NoMatch(old(head), prog, vers, netid) ==>
        exists s :: 0 <= s < |head| && Matches(head[s], prog, vers, netid) && NoMatch(head[..s], prog, vers, netid)
                    && ok == (head[s].dispatch == dispatch)
    {
      var s := Find(prog, vers, netid);
      if s < |head| {
        return head[s].dispatch == dispatch;
      }
      assert head[..s] == head;
      head := [Callout(prog, vers, dispatch, netid)] + head;
      ok := true;
    }

    /** svc_unreg: every entry for the version goes, whatever its network identifier. */
    method Unreg(prog: U32, vers: U32)
      requires Apart(head)
      modifies this
      ensures Apart(head) && head == Without(old(head), prog, vers)
    {
      WithoutKeeps(head, prog, vers);
      ghost var target := Without(head, prog, vers);
      var s := Find(prog, vers, None);
      while s < |head|
        invariant 0 <= s <= |head| && NoMatch(head[..s], prog, vers, None)
        invariant s < |head| ==> Matches(head[s], prog, vers, None)
        invariant Without(head, prog, vers) == target
        decreases |head|
      {
        WithoutRemoved(head, s, prog, vers);
        head := head[..s] + head[s + 1..];
        s := Find(prog, vers, None);
      }
      assert head[..s] == head;
      WithoutNothing(head, prog, vers);
    }

    /** The search of svc_getreq_common. A served version runs the first routine registered for it; otherwise the
        answer names the least and the greatest version of the program, or says that there is none. */
    method Dispatch(prog: U32, vers: U32) returns (r: Outcome)
      ensures r == Answer(head, prog, vers)
    {
      var progFound := false;
      var lowVers: U32, highVers: U32 := 0xffff_ffff, 0;
      var s := 0;
      while s < |head|
        invariant 0 <= s <= |head|
        invariant vers !in Versions(head[..s], prog)
        invariant progFound == (Versions(head[..s], prog) != {})
        invariant progFound ==> IsRange(Versions(head[..s], prog), lowVers, highVers)
        invariant !progFound ==> lowVers == 0xffff_ffff && highVers == 0
      {
        VersionsGrow(head, prog, s);
        if head[s].prog == prog {
          if head[s].vers == vers {
            ServedBy(head, prog, vers, s);
            return Served(head[s].dispatch);
          }
          progFound := true;
          if head[s].vers < lowVers { lowVers := head[s].vers; }
          if head[s].vers > highVers { highVers := head[s].vers; }
        }
        s := s + 1;
      }
      assert head[..s] == head;
      if progFound {
        RangeUnique(Versions(head, prog), lowVers, highVers);
        r := Mismatch(lowVers, highVers);
      } else {
        r := NoProgram;
      }
    }
  }

  datatype Outcome = Served(dispatch: nat) | Mismatch(low: U32, high: U32) | NoProgram

  /** low and high are the least and the greatest element of v. */
  predicate IsRange(v: set<U32>, low: U32, high: U32) {
    low in v && high in v && forall x :: x in v ==> low <= x <= high
  }

  function Least(v: set<U32>): (x: U32)
    requires v != {}
    ensures x in v && forall y :: y in v ==> x <= y
  {
    assert exists x :: x in v && forall y :: y in v ==> x <= y by { var c := LeastOf(v); }
    var x :| x in v && forall y :: y in v ==> x <= y;
    x
  }

  function Greatest(v: set<U32>): (x: U32)
    requires v != {}
    ensures x in v && forall y :: y in v ==> y <= x
  {
    assert exists x :: x in v && forall y :: y in v ==> y <= x by { var c := GreatestOf(v); }
    var x :| x in v && forall y :: y in v ==> y <= x;
    x
  }

  lemma {:induction false} LeastOf(v: set<U32>) returns (c: U32)
    requires v != {}
    ensures c in v && forall y :: y in v ==> c <= y
  {
    var a: U32 :| a in v;
    var rest := v - {a};
    c := a;
    if rest != {} {
      var b := LeastOf(rest);
      if b < a { c := b; }
    }
    forall y | y in v
      ensures c <= y
    {
      assert y == a || y in rest;
    }
  }

  lemma {:induction false} GreatestOf(v: set<U32>) returns (c: U32)
    requires v != {}
    ensures c in v && forall y :: y in v ==> y <= c
  {
    var a: U32 :| a in v;
    var rest := v - {a};
    c := a;
    if rest != {} {
      var b := GreatestOf(rest);
      if b > a { c := b; }
    }
    forall y | y in v
      ensures y <= c
    {
      assert y == a || y in rest;
    }
  }

  lemma RangeUnique(v: set<U32>, low: U32, high: U32)
    requires IsRange(v, low, high)
    ensures low == Least(v) && high == Greatest(v)
  {}

  /** The routine of the first entry for a served version. */
  function Routine(l: seq<Callout>, prog: U32, vers: U32): nat
    requires vers in Versions(l, prog)
  {
    if l[0].prog == prog && l[0].vers == vers then l[0].dispatch else Routine(l[1..], prog, vers)
  }

  function Answer(l: seq<Callout>, prog: U32, vers: U32): Outcome {
    var v := Versions(l, prog);
    if vers in v then Served(Routine(l, prog, vers))
    else if v == {} then NoProgram
    else Mismatch(Least(v), Greatest(v))
  }

  /** After svc_unreg the program no longer has the version; nothing else changes. */
  lemma {:induction false} WithoutVersions(l: seq<Callout>, prog: U32, vers: U32, p: U32)
    ensures Versions(Without(l, prog, vers), p) == Versions(l, p) - (if p == prog then {vers} else {})
  {
    if l != [] {
      WithoutVersions(l[1..], prog, vers, p);
      VersionsCons(l[0], l[1..], p);
      VersionsCons(l[0], Without(l[1..], prog, vers), p);
      assert [l[0]] + l[1..] == l;
    }
  }

  lemma VersionsCons(a: Callout, l: seq<Callout>, p: U32)
    ensures Versions([a] + l, p) == Versions(l, p) + (if a.prog == p then {a.vers} else {})
  {}

  lemma VersionsGrow(l: seq<Callout>, prog: U32, i: nat)
    requires i < |l|
    ensures Versions(l[..i + 1], prog) == Versions(l[..i], prog) + (if l[i].prog == prog then {l[i].vers} else {})
  {}

  lemma {:induction false} ServedBy(l: seq<Callout>, prog: U32, vers: U32, i: nat)
    requires i < |l| && l[i].prog == prog && l[i].vers == vers && vers !in Versions(l[..i], prog)
    ensures vers in Versions(l, prog) && Routine(l, prog, vers) == l[i].dispatch
  {
    assert l[i] in l;
    if i > 0 {
      assert l[..i][0] == l[0] && l[0] in l[..i];
      assert l[1..][..i - 1] == l[..i][1..];
      ServedBy(l[1..], prog, vers, i - 1);
    }
  }
}
