/** The network configuration database of libsrc/getnetconfig.c: lines are read once, as far as somebody asks for, into
    a list that all sessions share. */
module Netconfig {
  import opened Basics

  datatype Entry = Entry(netid: string, rest: string)

  /** A line of the database; all are well formed. */
  datatype Line = Comment | Record(entry: Entry)

  /** The entries of the lines, in order. */
  function Records(lines: seq<Line>): (r: seq<Entry>)
    ensures |r| <= |lines|
  {
    if lines == [] then []
    else
      var r := Records(lines[..|lines| - 1]);
      match lines[|lines| - 1] case Comment => r case Record(e) => r + [e]
  }

  lemma {:induction false} RecordsOfPrefix(lines: seq<Line>, n: nat)
    requires n <= |lines|
    ensures Records(lines[..n]) <= Records(lines)
    decreases |lines|
  {
    if n == |lines| {
      assert lines[..n] == lines;
    } else {
      var m := |lines| - 1;
      assert lines[..m][..n] == lines[..n];
      RecordsOfPrefix(lines[..m], n);
    }
  }

  lemma RecordsGrow(lines: seq<Line>, n: nat)
    requires n < |lines|
    ensures Records(lines[..n + 1]) == Records(lines[..n]) + (if lines[n].Record? then [lines[n].entry] else [])
  {
    assert lines[..n + 1][..n] == lines[..n];
  }

  /** The first entry with this identifier, or the length. */
  function FindId(es: seq<Entry>, netid: string, i: nat): (r: nat)
    requires i <= |es|
    ensures i <= r <= |es| && (r < |es| ==> es[r].netid == netid) && forall j :: i <= j < r ==> es[j].netid != netid
    decreases |es| - i
  {
    if i == |es| || es[i].netid == netid then i else FindId(es, netid, i + 1)
  }

  function Lookup(es: seq<Entry>, netid: string): Option<Entry> {
    var i := FindId(es, netid, 0);
    if i < |es| then Some(es[i]) else None
  }

  lemma FirstIsLookup(es: seq<Entry>, netid: string, i: nat)
    requires i < |es| && es[i].netid == netid && forall j :: 0 <= j < i ==> es[j].netid != netid
    ensures Lookup(es, netid) == Some(es[i])
  {}

  lemma NoneIsLookup(es: seq<Entry>, netid: string)
    requires forall j :: 0 <= j < |es| ==> es[j].netid != netid
    ensures Lookup(es, netid) == None
  {}

  /** struct netconfig_vars: `configs` is the index of the current entry in the shared list, -1 for null. */
  class Handle {
    var valid: bool
    var flag: bool
    var configs: int
    /** How often getnetconfig has been called. */
    ghost var served: nat

    constructor ()
      ensures valid && !flag && configs == -1 && served == 0
    {
      valid, flag, configs, served := true, false, -1, 0;
    }
  }

  class Database {
    const lines: seq<Line>
    /** The open file with its position, and the shared list. */
    var open: bool
    var pos: nat
    var eof: bool
    var ref: int
    var list: seq<Entry>
    ghost var live: set<Handle>

    ghost function All(): seq<Entry> {
      Records(lines)
    }

    /** The list holds the entries of the lines read so far; there is none without a session. */
    ghost predicate Shared()
      reads this
    {
      && pos <= |lines| && list == Records(lines[..pos]) && (eof ==> pos == |lines|)
      && open == (live != {}) && ref == |live|
      && (!open ==> pos == 0 && !eof)
    }

    /** A session stands at the last entry it was given; one that was given none has found all entries read. */
    ghost predicate Session(h: Handle)
      reads `list, `eof, h
    {
      && h.valid && h.flag == (h.served > 0)
      && (h.flag ==> h.configs == if h.served <= |list| then h.served - 1 else |list| - 1)
      && (h.served > |list| ==> eof)
    }

    ghost predicate Valid()
      reads this, live
    {
      Shared() && forall h :: h in live ==> Session(h)
    }

    constructor (lines: seq<Line>)
      ensures Valid() && this.lines == lines && live == {}
    {
      this.lines := lines;
      open, pos, eof, ref, list, live := false, 0, false, 0, [], {};
    }

    /** setnetconfig: null if the database cannot be opened. */
    method SetNetconfig(canOpen: bool) returns (h: Handle?)
      requires Valid()
      modifies this
      ensures Valid() && (h == null <==> !old(open) && !canOpen)
      ensures h != null ==> fresh(h) && h.served == 0 && live == old(live) + {h} && list == old(list)
      ensures h == null ==> live == old(live)
    {
      ref := ref + 1;
      if open || canOpen {
        h := new Handle();
        open := true;
        live := live + {h};
      } else {
        ref := ref - 1;
        h := null;
      }
    }

    /** Read lines up to the next record; false at the end of the file. */
    method ReadRecord() returns (ok: bool, e: Entry)
      requires pos <= |lines|
      modifies this`pos
      ensures old(pos) <= pos <= |lines|
      ensures ok ==> Records(lines[..pos]) == Records(lines[..old(pos)]) + [e]
      ensures !ok ==> pos == |lines| && Records(lines) == Records(lines[..old(pos)])
    {
      e := Entry("", "");
      while pos < |lines|
        invariant old(pos) <= pos <= |lines| && Records(lines[..pos]) == Records(lines[..old(pos)])
      {
        RecordsGrow(lines, pos);
        pos := pos + 1;
        match lines[pos - 1] {
          case Comment =>
          case Record(entry) => return true, entry;
        }
      }
      assert lines[..pos] == lines;
      ok := false;
    }

    /** The shared list gets the next entry, or is found to be complete. */
    method Extend() returns (ok: bool, e: Entry)
      requires Shared() && !eof && open
      modifies this`pos, this`eof, this`list
      ensures Shared() && list <= All()
      ensures if ok then list == old(list) + [e] && !eof else eof && list == old(list) == All()
    {
      ok, e := ReadRecord();
      RecordsOfPrefix(lines, pos);
      if ok {
        list := list + [e];
      } else {
        assert lines[..pos] == lines;
        eof := true;
      }
    }

    lemma SharedIsPrefix()
      requires Shared()
      ensures list <= All() && (eof ==> list == All()) && (live != {} ==> open)
    {
      RecordsOfPrefix(lines, pos);
      if eof { assert lines[..pos] == lines; }
    }

    /** getnetconfig: whatever other sessions have read, call k of a session gives entry k of the database, and null
        behind the last one. */
    method GetNetconfig(h: Handle) returns (e: Option<Entry>)
      requires Valid() && h in live
      modifies this`pos, this`eof, this`list, h
      ensures Valid() && h.served == old(h.served) + 1
      ensures e == if old(h.served) < |All()| then Some(All()[old(h.served)]) else None
      ensures old(list) <= list <= All()
    {
      SharedIsPrefix();
      hide Shared, All;
      ghost var k := h.served;
      h.served := k + 1;
      if !h.flag {
        h.flag := true;
        h.configs := if list == [] then -1 else 0;
        if h.configs != -1 { return Some(list[0]); }
      } else if h.configs != -1 && h.configs + 1 < |list| {
        h.configs := h.configs + 1;
        return Some(list[h.configs]);
      }
      if eof { return None; }
      var ok, entry := Extend();
      if !ok { return None; }
      h.configs := |list| - 1;
      e := Some(entry);
    }

    /** endnetconfig: the list is released with the last session, and not before. */
    method EndNetconfig(h: Handle)
      requires Valid() && h in live
      modifies this, h
      ensures Valid() && live == old(live) - {h} && !h.valid
      ensures if live == {} then list == [] && !open && !eof && ref == 0
              else list == old(list) && open && eof == old(eof) && pos == old(pos)
    {
      h.valid, h.flag, h.configs := false, false, -1;
      ref := ref - 1;
      assert live == (live - {h}) + {h};
      live := live - {h};
      if ref > 0 { return; }
      assert live == {};
      eof, ref, list := false, 0, [];
      open, pos := false, 0;
    }

    /** getnetconfigent: from the shared list if it is there, otherwise from a fresh scan; always what a fresh scan
        gives. */
    method GetNetconfigEnt(netid: string, canOpen: bool) returns (e: Option<Entry>)
      requires Valid()
      ensures netid == "" ==> e == None
      ensures netid != "" && canOpen ==> e == Lookup(All(), netid)
      ensures e.Some? ==> e == Lookup(All(), netid)
    {
      if netid == "" { return None; }
      RecordsOfPrefix(lines, pos);
      if list != [] {
        var i := 0;
        while i < |list|
          invariant 0 <= i <= |list| && forall j :: 0 <= j < i ==> list[j].netid != netid
        {
          if list[i].netid == netid {
            assert All()[i] == list[i] && forall j :: 0 <= j < i ==> All()[j] == list[j];
            FirstIsLookup(All(), netid, i);
            return Some(list[i]);
          }
          i := i + 1;
        }
        if eof {
          assert lines[..pos] == lines;
          NoneIsLookup(All(), netid);
          return None;
        }
      }
      if !canOpen { return None; }
      e := Scan(netid);
    }

    method Scan(netid: string) returns (e: Option<Entry>)
      ensures e == Lookup(All(), netid)
    {
      var p := 0;
      while p < |lines|
        invariant 0 <= p <= |lines| && forall j :: 0 <= j < |Records(lines[..p])| ==> Records(lines[..p])[j].netid != netid
      {
        RecordsGrow(lines, p);
        ghost var n := |Records(lines[..p])|;
        p := p + 1;
        RecordsOfPrefix(lines, p);
        match lines[p - 1] {
          case Comment =>
          case Record(entry) =>
            if entry.netid == netid {
              assert All()[n] == entry;
              FirstIsLookup(All(), netid, n);
              return Some(entry);
            }
        }
      }
      assert lines[..p] == lines;
      NoneIsLookup(All(), netid);
      e := None;
    }
  }
}
