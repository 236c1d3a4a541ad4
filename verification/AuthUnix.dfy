/** AUTH_SYS credentials: libsrc/svc_auth_unix.c and libsrc/authunix_prot.c. */
module AuthUnix {
  import opened Basics
  import opened Xdr
  import CallMsg

  const MAX_MACHINE_NAME := 255
  const NGRPS := 16

  datatype AuthStat = AuthOk | BadCred

  datatype Parms = Parms(time: U32, name: seq<Byte>, uid: U32, gid: U32, gids: seq<U32>)

  // ----- the format (Appendix A of RFC 5531)

  predicate Encodable(p: Parms) {
    |p.name| <= MAX_MACHINE_NAME && |p.gids| <= NGRPS
  }

  function Words(ws: seq<U32>): (s: seq<Byte>)
    ensures |s| == 4 * |ws|
  {
    if ws == [] then [] else Word(ws[0]) + Words(ws[1..])
  }

  function Layout(p: Parms, pad: seq<Byte>): seq<Byte>
    requires Encodable(p)
  {
    Words([p.time, |p.name|]) + p.name + pad + Words([p.uid, p.gid, |p.gids|] + p.gids)
  }

  function Size(p: Parms): nat {
    20 + RoundUp(|p.name|) + 4 * |p.gids|
  }

  /** n words from q on. */
  function WordsAt(s: seq<Byte>, q: nat, n: nat): (r: seq<U32>)
    requires q + 4 * n <= |s|
    ensures |r| == n
  {
    seq(n, i requires 0 <= i < n => WordAt(s, q + 4 * i))
  }

  /** The plain decoding of credentials; bytes behind them are ignored. */
  function Parse(s: seq<Byte>): (r: CallMsg.Parsed<Parms>)
    ensures r.Parsed? ==> Encodable(r.value) && r.next == Size(r.value) <= |s|
  {
    if |s| < 8 || WordAt(s, 4) > MAX_MACHINE_NAME then CallMsg.Malformed
    else
      var n, q := WordAt(s, 4), 8 + RoundUp(WordAt(s, 4));
      if q + 12 > |s| || WordAt(s, q + 8) > NGRPS || q + 12 + 4 * WordAt(s, q + 8) > |s| then CallMsg.Malformed
      else
        var k := WordAt(s, q + 8);
        CallMsg.Parsed(Parms(WordAt(s, 0), s[8..8 + n], WordAt(s, q), WordAt(s, q + 4), WordsAt(s, q + 12, k)), q + 12 + 4 * k)
  }

  /** What is decoded, word by word: a name of at most 255 bytes, and at most 16 groups. */
  lemma ParmsInBytes(s: seq<Byte>)
    ensures Parse(s).Parsed? <==>
      && |s| >= 8 && WordAt(s, 4) <= 255
      && var q := 8 + RoundUp(WordAt(s, 4));
         q + 12 <= |s| && WordAt(s, q + 8) <= 16 && q + 12 + 4 * WordAt(s, q + 8) <= |s|
    ensures Parse(s).Parsed? ==>
      var p, q := Parse(s).value, 8 + RoundUp(WordAt(s, 4));
      && p.time == WordAt(s, 0) && p.name == s[8..8 + WordAt(s, 4)]
      && p.uid == WordAt(s, q) && p.gid == WordAt(s, q + 4) && |p.gids| == WordAt(s, q + 8)
      && forall i :: 0 <= i < |p.gids| ==> p.gids[i] == WordAt(s, q + 12 + 4 * i)
  {
    hide WordAt, RoundUp;
  }

  lemma {:induction false} WordsThere(before: seq<Byte>, ws: seq<U32>, after: seq<Byte>, s: seq<Byte>, i: nat, at: nat)
    requires s == before + Words(ws) + after && i < |ws| && at == |before| + 4 * i
    ensures at + 4 <= |s| && WordAt(s, at) == ws[i]
    decreases |ws|
  {
    assert s == before + Word(ws[0]) + (Words(ws[1..]) + after);
    if i == 0 {
      CallMsg.WordThere(before, ws[0], Words(ws[1..]) + after, s, |before|);
    } else {
      assert s == (before + Word(ws[0])) + Words(ws[1..]) + after;
      WordsThere(before + Word(ws[0]), ws[1..], after, s, i - 1, at);
    }
  }

  lemma AroundName(h: seq<Byte>, n: seq<Byte>, pad: seq<Byte>, t: seq<Byte>, a: seq<Byte>)
    ensures h + n + pad + t + a == [] + h + (n + pad + t + a) == h + n + pad + t + a
    ensures (h + n + pad + t + a)[|h|..|h| + |n|] == n
  {}

  lemma RoundTrip(p: Parms, pad: seq<Byte>, after: seq<Byte>)
    requires Encodable(p) && CallMsg.PaddingOf(pad, |p.name|)
    ensures Parse(Layout(p, pad) + after) == CallMsg.Parsed(p, Size(p))
  {
    hide Word, WordAt, WordsAt, Words;
    var s := Layout(p, pad) + after;
    var n: U32, k: U32 := |p.name|, |p.gids|;
    var head, tail := [p.time, n], [p.uid, p.gid, k] + p.gids;
    var before := Words(head) + p.name + pad;
    AroundName(Words(head), p.name, pad, Words(tail), after);
    WordsThere([], head, p.name + pad + Words(tail) + after, s, 0, 0);
    WordsThere([], head, p.name + pad + Words(tail) + after, s, 1, 4);
    WordsThere(before, tail, after, s, 0, |before|);
    WordsThere(before, tail, after, s, 1, |before| + 4);
    WordsThere(before, tail, after, s, 2, |before| + 8);
    GidsThere(before, [p.uid, p.gid, k], tail, after, s, p.gids);
  }

  lemma GidThere(before: seq<Byte>, front: seq<U32>, tail: seq<U32>, after: seq<Byte>, s: seq<Byte>,
          gids: seq<U32>, i: nat, at: nat)
    requires s == before + Words(tail) + after && tail == front + gids && |front| == 3 && i < |gids|
    requires at == |before| + 12 + 4 * i
    ensures at + 4 <= |s| && WordAt(s, at) == gids[i]
  {
    hide WordAt, Words;
    WordsThere(before, tail, after, s, i + 3, at);
  }

  lemma GidsThere(before: seq<Byte>, front: seq<U32>, tail: seq<U32>, after: seq<Byte>, s: seq<Byte>, gids: seq<U32>)
    requires s == before + Words(tail) + after && tail == front + gids && |front| == 3
    ensures |before| + 12 + 4 * |gids| <= |s| && WordsAt(s, |before| + 12, |gids|) == gids
  {
    hide WordAt, Words;
    var q := |before| + 12;
    var ws := WordsAt(s, q, |gids|);
    forall i | 0 <= i < |gids|
      ensures ws[i] == gids[i]
    {
      GidThere(before, front, tail, after, s, gids, i, q + 4 * i);
    }
  }

  lemma {:induction false} WordsSplit(s: seq<Byte>, q: nat, n: nat)
    requires q + 4 * n <= |s|
    ensures s[q..q + 4 * n] == Words(WordsAt(s, q, n))
    decreases n
  {
    if n > 0 {
      WordsSplit(s, q + 4, n - 1);
      CallMsg.WordSplit(s, q);
      assert WordsAt(s, q, n)[1..] == WordsAt(s, q + 4, n - 1);
      assert s[q..q + 4 * n] == s[q..q + 4] + s[q + 4..q + 4 * n];
    }
  }

  /** Only the bytes of encodable credentials, with some padding, are decoded. */
  lemma OnlyLayoutsParse(s: seq<Byte>) returns (pad: seq<Byte>)
    requires Parse(s).Parsed?
    ensures var r := Parse(s); CallMsg.PaddingOf(pad, |r.value.name|) && s[..r.next] == Layout(r.value, pad)
  {
    hide Words, WordAt;
    var r := Parse(s);
    var n, q, k := |r.value.name|, 8 + RoundUp(|r.value.name|), |r.value.gids|;
    pad := s[8 + n..q];
    WordsSplit(s, 0, 2);
    WordsSplit(s, q, 3 + k);
    assert WordsAt(s, 0, 2) == [r.value.time, n];
    assert WordsAt(s, q, 3 + k) == [r.value.uid, r.value.gid, k] + r.value.gids;
    assert s[..r.next] == s[0..8] + s[8..8 + n] + pad + s[q..r.next];
  }

  // ----- the decoders

  /** The area a credential is decoded into. */
  class Area {
    var time: U32
    const machname: array<Byte>
    var uid: U32
    var gid: U32
    var len: nat
    const gids: array<U32>

    constructor ()
      ensures machname.Length == MAX_MACHINE_NAME + 1 && gids.Length == NGRPS && fresh(machname) && fresh(gids)
    {
      time, uid, gid, len := 0, 0, 0, 0;
      machname := new Byte[MAX_MACHINE_NAME + 1](_ => 0);
      gids := new U32[NGRPS](_ => 0);
    }

    ghost predicate Valid() {
      machname.Length == MAX_MACHINE_NAME + 1 && gids.Length == NGRPS
    }

    ghost predicate HasName(b: seq<Byte>)
      reads machname
    {
      |b| < machname.Length && machname[..|b|] == b && machname[|b|] == 0
    }

    /** The area holds p; the name is a C string. */
    ghost predicate Holds(p: Parms)
      reads this, machname, gids
    {
      && Valid() && Encodable(p)
      && time == p.time && uid == p.uid && gid == p.gid
      && HasName(p.name)
      && len == |p.gids| && gids[..len] == p.gids
    }

    method SetName(b: seq<Byte>)
      requires Valid() && |b| <= MAX_MACHINE_NAME
      modifies machname
      ensures HasName(b)
    {
      forall i | 0 <= i < |b| { machname[i] := b[i]; }
      machname[|b|] := 0;
    }
  }

  lemma WordsGrow(s: seq<Byte>, q: nat, n: nat)
    requires q + 4 * n + 4 <= |s|
    ensures WordsAt(s, q, n + 1) == WordsAt(s, q, n) + [WordAt(s, q + 4 * n)]
  {}

  /** xdr_array of at most NGRPS integers. */
  method GetGids(x: Stream, area: Area) returns (ok: bool)
    requires x.Valid() && area.Valid() && x.data != area.machname
    modifies x`pos, area`len, area.gids
    ensures x.Valid()
    ensures ok == (old(x.pos) + 4 <= x.data.Length && WordAt(x.data[..], old(x.pos)) <= NGRPS
                   && old(x.pos) + 4 + 4 * WordAt(x.data[..], old(x.pos)) <= x.data.Length)
    ensures ok ==> area.len == WordAt(x.data[..], old(x.pos))
    ensures ok ==> area.gids[..area.len] == WordsAt(x.data[..], old(x.pos) + 4, area.len)
    ensures ok ==> x.pos == old(x.pos) + 4 + 4 * area.len
  {
    hide WordAt, WordsAt;
    var n, w;
    ok, n := x.GetWord();
    if !ok { return; }
    if n > NGRPS { return false; }
    area.len := n;
    var i := 0;
    ghost var q := x.pos;
    while i < n
      invariant 0 <= i <= n && x.Valid() && x.pos == q + 4 * i && area.len == n
      invariant area.gids[..i] == WordsAt(x.data[..], q, i)
    {
      ok, w := x.GetWord();
      if !ok { return; }
      WordsGrow(x.data[..], q, i);
      area.gids[i] := w;
      assert area.gids[..i + 1] == area.gids[..i] + [w];
      i := i + 1;
    }
    ok := true;
  }

  /** The time stamp and the machine name: xdr_u_long and xdr_string. */
  method GetStampAndName(x: Stream, area: Area) returns (ok: bool)
    requires x.Valid() && x.pos == 0 && area.Valid() && x.data != area.machname
    modifies x`pos, area`time, area.machname
    ensures x.Valid()
    ensures ok == (8 <= x.data.Length && WordAt(x.data[..], 4) <= MAX_MACHINE_NAME
                   && 8 + RoundUp(WordAt(x.data[..], 4)) <= x.data.Length)
    ensures ok ==> x.pos == 8 + RoundUp(WordAt(x.data[..], 4)) && area.time == WordAt(x.data[..], 0)
    ensures ok ==> area.HasName(x.data[..][8..8 + WordAt(x.data[..], 4)])
  {
    hide WordAt, RoundUp;
    var w, n, name;
    ok, w := x.GetWord();
    if !ok { return; }
    area.time := w;
    ok, n := x.GetWord();
    if !ok { return; }
    if n > MAX_MACHINE_NAME { return false; }
    ok, name := x.GetOpaque(n);
    if !ok { return; }
    area.SetName(name);
  }

  /** xdr_authunix_parms on a stream that is read. */
  method GetParms(x: Stream, area: Area) returns (ok: bool)
    requires x.Valid() && x.pos == 0 && area.Valid() && x.data != area.machname
    modifies x`pos, area, area.machname, area.gids
    ensures ok == Parse(x.data[..]).Parsed?
    ensures ok ==> area.Holds(Parse(x.data[..]).value)
  {
    hide WordAt, RoundUp, WordsAt;
    var w;
    ok := GetStampAndName(x, area);
    if !ok { return; }
    ok, w := x.GetWord();
    if !ok { return; }
    area.uid := w;
    ok, w := x.GetWord();
    if !ok { return; }
    area.gid := w;
    ok := GetGids(x, area);
  }

  // ----- _svcauth_unix

  /** Words of the credential area; only the first n bytes belong to the credentials. */
  lemma InArea(area: seq<Byte>, n: nat, at: nat)
    requires at + 4 <= n <= |area|
    ensures WordAt(area[..n], at) == WordAt(area, at)
  {
    assert area[..n][at..at + 4] == area[at..at + 4];
  }

  /** The group identifiers in place. */
  method LoadGids(base: array<Byte>, at: nat, n: nat, area: Area)
    requires area.Valid() && n <= NGRPS && at + 4 * n <= base.Length
    modifies area.gids
    ensures area.gids[..n] == WordsAt(base[..], at, n)
  {
    var i := 0;
    while i < n
      invariant 0 <= i <= n
      invariant area.gids[..i] == WordsAt(base[..], at, i)
    {
      area.gids[i] := Load(base, at + 4 * i);
      i := i + 1;
    }
  }

  /** The checks of the in-place decoder, on the area d. */
  predicate Accepts(d: seq<Byte>, authLen: nat)
    requires |d| >= CallMsg.MAX_AUTH_BYTES
  {
    var n := WordAt(d, 4);
    && n <= MAX_MACHINE_NAME
    && var k := WordAt(d, 16 + RoundUp(n));
       k <= NGRPS && (5 + k) * 4 + RoundUp(n) <= authLen
  }

  /** What the in-place decoder has read if it accepts. */
  function Fields(d: seq<Byte>, authLen: nat): Parms
    requires |d| >= CallMsg.MAX_AUTH_BYTES && authLen <= |d| && Accepts(d, authLen)
  {
    var n, q := WordAt(d, 4), 8 + RoundUp(WordAt(d, 4));
    Parms(WordAt(d, 0), d[8..8 + n], WordAt(d, q), WordAt(d, q + 4), WordsAt(d, q + 12, WordAt(d, q + 8)))
  }

  /** The checks come after the reads, and the reads go past the credentials; the verdict is still that of the plain
      decoding of the credentials alone, whatever bytes lie behind them. */
  lemma AcceptsWhatParses(d: seq<Byte>, authLen: nat)
    requires authLen <= CallMsg.MAX_AUTH_BYTES <= |d|
    ensures Accepts(d, authLen) == Parse(d[..authLen]).Parsed?
    ensures Accepts(d, authLen) ==> Parse(d[..authLen]).value == Fields(d, authLen)
  {
    hide WordAt;
    var s := d[..authLen];
    if authLen >= 8 {
      InArea(d, authLen, 0);
      InArea(d, authLen, 4);
      var q := 8 + RoundUp(WordAt(d, 4));
      if q + 12 <= authLen {
        InArea(d, authLen, q);
        InArea(d, authLen, q + 4);
        InArea(d, authLen, q + 8);
        if q + 12 + 4 * WordAt(d, q + 8) <= authLen {
          GidsInArea(d, authLen, q + 12, WordAt(d, q + 8));
          assert 8 + WordAt(d, 4) <= authLen ==> s[8..8 + WordAt(d, 4)] == d[8..8 + WordAt(d, 4)];
        }
      }
    }
  }

  lemma GidsInArea(d: seq<Byte>, n: nat, q: nat, k: nat)
    requires q + 4 * k <= n <= |d|
    ensures WordsAt(d[..n], q, k) == WordsAt(d, q, k)
  {
    hide WordAt;
    forall i | 0 <= i < k ensures WordAt(d[..n], q + 4 * i) == WordAt(d, q + 4 * i) { InArea(d, n, q + 4 * i); }
  }

  /** The in-place decoder. */
  method LoadParms(base: array<Byte>, authLen: nat, area: Area) returns (stat: AuthStat)
    requires authLen <= CallMsg.MAX_AUTH_BYTES <= base.Length && area.Valid() && base != area.machname
    modifies area, area.machname, area.gids
    ensures stat.AuthOk? == Accepts(base[..], authLen)
    ensures stat.AuthOk? ==> area.Holds(Fields(base[..], authLen))
  {
    hide WordAt, WordsAt, RoundUp;
    ghost var d := base[..];
    area.time := Load(base, 0);
    var strLen: nat := Load(base, 4);
    if strLen > MAX_MACHINE_NAME { return BadCred; }
    area.SetName(base[8..8 + strLen]);
    var rounded := RoundUp(strLen);
    var buf := 8 + rounded;
    area.uid := Load(base, buf);
    area.gid := Load(base, buf + 4);
    var gidLen: nat := Load(base, buf + 8);
    if gidLen > NGRPS { return BadCred; }
    area.len := gidLen;
    LoadGids(base, buf + 12, gidLen, area);
    if (5 + gidLen) * 4 + rounded > authLen { return BadCred; }
    stat := AuthOk;
  }

  method CopyOf(base: array<Byte>, n: nat) returns (copy: array<Byte>)
    requires n <= base.Length
    ensures fresh(copy) && copy[..] == base[..n]
  {
    copy := new Byte[n];
    forall i | 0 <= i < n { copy[i] := base[i]; }
  }

  /** The plain decoder, on a stream over the credentials. */
  method DecodeParms(base: array<Byte>, authLen: nat, area: Area) returns (stat: AuthStat)
    requires authLen <= base.Length && area.Valid() && base != area.machname
    modifies area, area.machname, area.gids
    ensures stat.AuthOk? == Parse(base[..authLen]).Parsed?
    ensures stat.AuthOk? ==> area.Holds(Parse(base[..authLen]).value)
  {
    hide Parse;
    var creds := CopyOf(base, authLen);
    var x := new Stream(creds, []);
    var ok := GetParms(x, area);
    stat := if ok then AuthOk else BadCred;
  }

  /** The transport's response verifier. */
  class Transport {
    var verf: CallMsg.OpaqueAuth
  }

  const AUTH_NULL: U32 := 0

  /** _svcauth_unix: `granted` says whether the stream over the credentials gives them in place. */
  method SvcAuthUnix(base: array<Byte>, authLen: nat, granted: bool, area: Area, xprt: Transport)
    returns (stat: AuthStat)
    requires authLen <= CallMsg.MAX_AUTH_BYTES <= base.Length && area.Valid() && base != area.machname
    modifies area, area.machname, area.gids, xprt
    ensures stat.AuthOk? == Parse(base[..authLen]).Parsed?
    ensures stat.AuthOk? ==> area.Holds(Parse(base[..authLen]).value)
    ensures xprt.verf == if stat.AuthOk? then CallMsg.OpaqueAuth(0, []) else old(xprt.verf)
  {
    AcceptsWhatParses(base[..], authLen);
    hide Parse, Accepts, Fields;
    if granted {
      stat := LoadParms(base, authLen, area);
      assert base[..][..authLen] == base[..authLen];
    } else {
      stat := DecodeParms(base, authLen, area);
    }
    if stat.AuthOk? {
      xprt.verf := CallMsg.OpaqueAuth(AUTH_NULL, []);
    }
  }
}
