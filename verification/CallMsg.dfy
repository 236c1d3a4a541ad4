/** Call messages: libsrc/rpc_callmsg.c, and opaque_auth of libsrc/rpc_prot.c. */
module CallMsg {
  import opened Basics
  import opened Xdr

  const MAX_AUTH_BYTES := 400
  const RPC_MSG_VERSION: U32 := 2
  const CALL: U32 := 0

  /** An authenticator: a flavor and uninterpreted bytes. */
  datatype OpaqueAuth = OpaqueAuth(flavor: U32, body: seq<Byte>)

  datatype CallMsg = CallMsg(xid: U32, direction: U32, rpcvers: U32, prog: U32, vers: U32, proc: U32,
                             cred: OpaqueAuth, verf: OpaqueAuth)

  // ----- the format

  /** What decoding finds: a value that ends before `next`. */
  datatype Parsed<T> = Malformed | Parsed(value: T, next: nat)

  predicate Encodable(m: CallMsg) {
    && m.direction == CALL && m.rpcvers == RPC_MSG_VERSION
    && |m.cred.body| <= MAX_AUTH_BYTES && |m.verf.body| <= MAX_AUTH_BYTES
  }

  function AuthSize(a: OpaqueAuth): nat {
    8 + RoundUp(|a.body|)
  }

  function CallSize(m: CallMsg): nat {
    24 + AuthSize(m.cred) + AuthSize(m.verf)
  }

  predicate PaddingOf(pad: seq<Byte>, n: nat) {
    |pad| == RoundUp(n) - n
  }

  function AuthHead(a: OpaqueAuth): seq<Byte>
    requires |a.body| <= MAX_AUTH_BYTES
  {
    Word(a.flavor) + Word(|a.body|)
  }

  function AuthLayout(a: OpaqueAuth, pad: seq<Byte>): seq<Byte>
    requires |a.body| <= MAX_AUTH_BYTES
  {
    AuthHead(a) + a.body + pad
  }

  function HeaderLayout(m: CallMsg): (r: seq<Byte>)
    ensures |r| == 24
  {
    Word(m.xid) + Word(m.direction) + Word(m.rpcvers) + Word(m.prog) + Word(m.vers) + Word(m.proc)
  }

  /** The bytes of a call message (sections 8.2 and 9 of RFC 5531), with these paddings. */
  function Layout(m: CallMsg, pad1: seq<Byte>, pad2: seq<Byte>): seq<Byte>
    requires Encodable(m)
  {
    HeaderLayout(m) + AuthLayout(m.cred, pad1) + AuthLayout(m.verf, pad2)
  }

  function ParseAuth(s: seq<Byte>, p: nat): (r: Parsed<OpaqueAuth>)
    ensures r.Parsed? ==> r.next <= |s| && |r.value.body| <= MAX_AUTH_BYTES && r.next == p + AuthSize(r.value)
  {
    if p + 8 > |s| then Malformed
    else
      var len := WordAt(s, p + 4);
      if len > MAX_AUTH_BYTES || p + 8 + RoundUp(len) > |s| then Malformed
      else Parsed(OpaqueAuth(WordAt(s, p), s[p + 8..p + 8 + len]), p + 8 + RoundUp(len))
  }

  function ParseCall(s: seq<Byte>, p: nat): (r: Parsed<CallMsg>)
    ensures r.Parsed? ==> r.next <= |s| && Encodable(r.value) && r.next == p + CallSize(r.value)
  {
    if p + 24 > |s| || WordAt(s, p + 4) != CALL || WordAt(s, p + 8) != RPC_MSG_VERSION then Malformed
    else
      var cred := ParseAuth(s, p + 24);
      if cred.Malformed? then Malformed
      else
        var verf := ParseAuth(s, cred.next);
        if verf.Malformed? then Malformed
        else
          Parsed(CallMsg(WordAt(s, p), CALL, RPC_MSG_VERSION, WordAt(s, p + 12), WordAt(s, p + 16), WordAt(s, p + 20),
                         cred.value, verf.value), verf.next)
  }

  /** An authenticator at p: its length is in the second word, at most 400. */
  predicate AuthAt(s: seq<Byte>, p: nat) {
    p + 8 <= |s| && WordAt(s, p + 4) <= 400 && p + 8 + RoundUp(WordAt(s, p + 4)) <= |s|
  }

  /** What is decoded, word by word: a call (0) of version 2 with two authenticators. */
  lemma CallInBytes(s: seq<Byte>, p: nat)
    ensures ParseCall(s, p).Parsed? <==>
      && p + 24 <= |s| && WordAt(s, p + 4) == 0 && WordAt(s, p + 8) == 2
      && AuthAt(s, p + 24) && AuthAt(s, p + 32 + RoundUp(WordAt(s, p + 28)))
    ensures ParseCall(s, p).Parsed? ==>
      var m, n := ParseCall(s, p).value, WordAt(s, p + 28);
      var q := p + 32 + RoundUp(n);
      && m.xid == WordAt(s, p) && m.prog == WordAt(s, p + 12) && m.vers == WordAt(s, p + 16) && m.proc == WordAt(s, p + 20)
      && m.cred == OpaqueAuth(WordAt(s, p + 24), s[p + 32..p + 32 + n])
      && m.verf == OpaqueAuth(WordAt(s, q), s[q + 8..q + 8 + WordAt(s, q + 4)])
  {
    hide WordAt, RoundUp;
  }

  // ----- decoding what was encoded

  lemma WordThere(a: seq<Byte>, w: U32, b: seq<Byte>, s: seq<Byte>, p: nat)
    requires s == a + Word(w) + b && p == |a|
    ensures p + 4 <= |s| && WordAt(s, p) == w
  {
    ValueOfWord(w);
    assert s[p..p + 4] == Word(w);
  }

  lemma Regroup(b: seq<Byte>, h: seq<Byte>, c: seq<Byte>, v: seq<Byte>, a: seq<Byte>)
    ensures b + (h + c + v) + a == b + h + (c + v + a) == b + h + c + (v + a) == b + h + c + v + a
  {}

  lemma Divide(s: seq<Byte>, p: nat, q: nat, r: nat, t: nat)
    requires p <= q <= r <= t <= |s|
    ensures s[p..t] == s[p..q] + s[q..r] + s[r..t]
  {}

  lemma LayoutSize(a: OpaqueAuth, pad: seq<Byte>)
    requires |a.body| <= MAX_AUTH_BYTES && PaddingOf(pad, |a.body|)
    ensures |AuthLayout(a, pad)| == AuthSize(a)
  {}

  lemma AuthRoundTrip(before: seq<Byte>, a: OpaqueAuth, pad: seq<Byte>, after: seq<Byte>)
    requires |a.body| <= MAX_AUTH_BYTES && PaddingOf(pad, |a.body|)
    ensures ParseAuth(before + AuthLayout(a, pad) + after, |before|) == Parsed(a, |before| + AuthSize(a))
  {
    hide Word, WordAt;
    var s := before + AuthLayout(a, pad) + after;
    var p, len: U32 := |before|, |a.body|;
    var f, l := Word(a.flavor), Word(len);
    Regroup(before, f, l, a.body + pad, after);
    assert s == before + (f + l + (a.body + pad)) + after;
    WordThere(before, a.flavor, l + (a.body + pad) + after, s, p);
    WordThere(before + f, len, a.body + pad + after, s, p + 4);
    assert s[p + 8..p + 8 + len] == a.body;
  }

  lemma HeaderThere(before: seq<Byte>, m: CallMsg, after: seq<Byte>, s: seq<Byte>, p: nat)
    requires s == before + HeaderLayout(m) + after && p == |before|
    ensures p + 24 <= |s|
    ensures WordAt(s, p) == m.xid && WordAt(s, p + 4) == m.direction && WordAt(s, p + 8) == m.rpcvers
    ensures WordAt(s, p + 12) == m.prog && WordAt(s, p + 16) == m.vers && WordAt(s, p + 20) == m.proc
  {
    hide Word, Value;
    var h := HeaderLayout(m);
    assert s[p..p + 4] == h[0..4] == Word(m.xid) && s[p + 4..p + 8] == h[4..8] == Word(m.direction);
    assert s[p + 8..p + 12] == h[8..12] == Word(m.rpcvers) && s[p + 12..p + 16] == h[12..16] == Word(m.prog);
    assert s[p + 16..p + 20] == h[16..20] == Word(m.vers) && s[p + 20..p + 24] == h[20..24] == Word(m.proc);
    ValueOfWord(m.xid); ValueOfWord(m.direction); ValueOfWord(m.rpcvers);
    ValueOfWord(m.prog); ValueOfWord(m.vers); ValueOfWord(m.proc);
  }

  /** Whatever the padding bytes and the bytes around it, an encoded message is decoded to itself, and to its end. */
  lemma RoundTrip(before: seq<Byte>, m: CallMsg, pad1: seq<Byte>, pad2: seq<Byte>, after: seq<Byte>)
    requires Encodable(m) && PaddingOf(pad1, |m.cred.body|) && PaddingOf(pad2, |m.verf.body|)
    ensures ParseCall(before + Layout(m, pad1, pad2) + after, |before|) == Parsed(m, |before| + CallSize(m))
  {
    hide AuthLayout, HeaderLayout, ParseAuth, WordAt, AuthSize, RoundUp;
    var s := before + Layout(m, pad1, pad2) + after;
    var h, c, v := HeaderLayout(m), AuthLayout(m.cred, pad1), AuthLayout(m.verf, pad2);
    Regroup(before, h, c, v, after);
    HeaderThere(before, m, c + v + after, s, |before|);
    AuthRoundTrip(before + h, m.cred, pad1, v + after);
    AuthRoundTrip(before + h + c, m.verf, pad2, after);
    LayoutSize(m.cred, pad1);
  }

  lemma WordSplit(s: seq<Byte>, p: nat)
    requires p + 4 <= |s|
    ensures s[p..p + 4] == Word(WordAt(s, p))
  {
    hide Word, Value;
    WordOfValue(s[p..p + 4]);
  }

  lemma ParsedAuthIsLaidOut(s: seq<Byte>, p: nat)
    requires ParseAuth(s, p).Parsed?
    ensures var r := ParseAuth(s, p); var n := |r.value.body|;
      && PaddingOf(s[p + 8 + n..r.next], n)
      && s[p..r.next] == AuthLayout(r.value, s[p + 8 + n..r.next])
  {
    hide Word, WordAt;
    var r := ParseAuth(s, p);
    var n := |r.value.body|;
    WordSplit(s, p);
    WordSplit(s, p + 4);
    Divide(s, p, p + 4, p + 8, p + 8);
    Divide(s, p, p + 8, p + 8 + n, r.next);
  }

  /** Only the bytes of an encodable message, with some padding, are decoded. */
  lemma OnlyLayoutsParse(s: seq<Byte>, p: nat) returns (pad1: seq<Byte>, pad2: seq<Byte>)
    requires ParseCall(s, p).Parsed?
    ensures var r := ParseCall(s, p);
      && PaddingOf(pad1, |r.value.cred.body|) && PaddingOf(pad2, |r.value.verf.body|)
      && s[p..r.next] == Layout(r.value, pad1, pad2)
  {
    hide AuthLayout, HeaderLayout, WordAt;
    var r := ParseCall(s, p);
    var cred := ParseAuth(s, p + 24);
    ParsedAuthIsLaidOut(s, p + 24);
    ParsedAuthIsLaidOut(s, cred.next);
    pad1 := s[p + 32 + |cred.value.body|..cred.next];
    pad2 := s[cred.next + 8 + |r.value.verf.body|..r.next];
    HeaderSplit(s, p, r.value);
    Divide(s, p, p + 24, cred.next, r.next);
  }

  lemma HeaderSplit(s: seq<Byte>, p: nat, m: CallMsg)
    requires p + 24 <= |s|
    requires m.xid == WordAt(s, p) && m.direction == WordAt(s, p + 4) && m.rpcvers == WordAt(s, p + 8)
    requires m.prog == WordAt(s, p + 12) && m.vers == WordAt(s, p + 16) && m.proc == WordAt(s, p + 20)
    ensures s[p..p + 24] == HeaderLayout(m)
  {
    WordSplit(s, p); WordSplit(s, p + 4); WordSplit(s, p + 8);
    WordSplit(s, p + 12); WordSplit(s, p + 16); WordSplit(s, p + 20);
    assert s[p..p + 24] ==
           s[p..p + 4] + s[p + 4..p + 8] + s[p + 8..p + 12] + s[p + 12..p + 16] + s[p + 16..p + 20] + s[p + 20..p + 24];
  }

  // ----- xdr_opaque_auth and xdr_callmsg

  /** xdr_opaque_auth on a stream that is read. */
  method GetAuth(x: Stream) returns (ok: bool, a: OpaqueAuth)
    requires x.Valid()
    modifies x`pos
    ensures x.Valid() && ok == ParseAuth(x.data[..], old(x.pos)).Parsed?
    ensures ok ==> ParseAuth(x.data[..], old(x.pos)) == Parsed(a, x.pos)
  {
    hide WordAt, RoundUp;
    a := OpaqueAuth(0, []);
    var flavor, length;
    ok, flavor := x.GetWord();
    if !ok { return; }
    ok, length := x.GetWord();
    if !ok { return; }
    if length > MAX_AUTH_BYTES { return false, a; }
    var body := [];
    if length != 0 {
      ok, body := x.GetOpaque(length);
    }
    a := OpaqueAuth(flavor, body);
  }

  /** The body of an authenticator whose head has been read: in place if the stream allows it. */
  method GetBody(x: Stream, length: U32) returns (ok: bool, body: seq<Byte>)
    requires x.Valid()
    modifies x`pos, x`grants
    ensures x.Valid() && ok == (length <= MAX_AUTH_BYTES && old(x.pos) + RoundUp(length) <= x.data.Length)
    ensures ok ==> x.pos == old(x.pos) + RoundUp(length) && body == x.data[old(x.pos)..old(x.pos) + length]
  {
    body := [];
    if length != 0 {
      if length > MAX_AUTH_BYTES { return false, []; }
      var buf := x.Inline(RoundUp(length));
      if buf == -1 {
        ok, body := x.GetOpaque(length);
      } else {
        ok, body := true, x.data[buf..buf + length];
      }
    } else {
      ok := true;
    }
  }

  /** The verifier, after the in-place credentials. */
  method GetVerifier(x: Stream) returns (ok: bool, a: OpaqueAuth)
    requires x.Valid()
    modifies x`pos, x`grants
    ensures x.Valid() && ok == ParseAuth(x.data[..], old(x.pos)).Parsed?
    ensures ok ==> ParseAuth(x.data[..], old(x.pos)) == Parsed(a, x.pos)
  {
    hide WordAt, RoundUp;
    a := OpaqueAuth(0, []);
    var flavor, length;
    var buf := x.Inline(8);
    if buf == -1 {
      ok, flavor := x.GetWord();
      if !ok { return; }
      ok, length := x.GetWord();
      if !ok { return; }
    } else {
      flavor := Load(x.data, buf);
      length := Load(x.data, buf + 4);
    }
    var body;
    ok, body := GetBody(x, length);
    a := OpaqueAuth(flavor, body);
  }

  /** What a decoder found at p is what the format says. */
  ghost predicate Decodes(s: seq<Byte>, p: nat, ok: bool, m: CallMsg, next: nat) {
    ok == ParseCall(s, p).Parsed? && (ok ==> ParseCall(s, p) == Parsed(m, next))
  }

  const NONE := OpaqueAuth(0, [])
  const NO_MESSAGE := CallMsg(0, 0, 0, 0, 0, 0, NONE, NONE)

  /** The plain path of xdr_callmsg. */
  method GetCallPlain(x: Stream) returns (ok: bool, m: CallMsg)
    requires x.Valid()
    modifies x`pos
    ensures x.Valid() && Decodes(x.data[..], old(x.pos), ok, m, x.pos)
  {
    hide WordAt, RoundUp, ParseAuth;
    m := NO_MESSAGE;
    var xid, direction, rpcvers, prog, vers, proc, cred, verf;
    ok, xid := x.GetWord();
    if !ok { return; }
    ok, direction := x.GetWord();
    if !ok { return; }
    if direction != CALL { return false, m; }
    ok, rpcvers := x.GetWord();
    if !ok { return; }
    if rpcvers != RPC_MSG_VERSION { return false, m; }
    ok, prog := x.GetWord();
    if !ok { return; }
    ok, vers := x.GetWord();
    if !ok { return; }
    ok, proc := x.GetWord();
    if !ok { return; }
    ok, cred := GetAuth(x);
    if !ok { return; }
    ok, verf := GetAuth(x);
    m := CallMsg(xid, direction, rpcvers, prog, vers, proc, cred, verf);
  }

  /** An authenticator whose head and body have been found. */
  lemma AuthInPlace(s: seq<Byte>, p: nat, ok: bool, body: seq<Byte>)
    requires p + 8 <= |s|
    requires ok == (WordAt(s, p + 4) <= MAX_AUTH_BYTES && p + 8 + RoundUp(WordAt(s, p + 4)) <= |s|)
    requires ok ==> body == s[p + 8..p + 8 + WordAt(s, p + 4)]
    ensures ParseAuth(s, p) ==
            if ok then Parsed(OpaqueAuth(WordAt(s, p), body), p + 8 + RoundUp(WordAt(s, p + 4))) else Malformed
  {}

  /** xdr_callmsg on a stream that is read: the result does not depend on what the stream grants in place. */
  method GetCall(x: Stream) returns (ok: bool, m: CallMsg)
    requires x.Valid()
    modifies x`pos, x`grants
    ensures x.Valid() && Decodes(x.data[..], old(x.pos), ok, m, x.pos)
  {
    hide WordAt, RoundUp, ParseAuth;
    m := NO_MESSAGE;
    var buf := x.Inline(32);
    if buf == -1 {
      ok, m := GetCallPlain(x);
      return;
    }
    var xid := Load(x.data, buf);
    var direction := Load(x.data, buf + 4);
    if direction != CALL { return false, m; }
    var rpcvers := Load(x.data, buf + 8);
    if rpcvers != RPC_MSG_VERSION { return false, m; }
    var prog := Load(x.data, buf + 12);
    var vers := Load(x.data, buf + 16);
    var proc := Load(x.data, buf + 20);
    var flavor := Load(x.data, buf + 24);
    var length := Load(x.data, buf + 28);
    var body, verf;
    ok, body := GetBody(x, length);
    AuthInPlace(x.data[..], buf + 24, ok, body);
    if !ok { return; }
    ok, verf := GetVerifier(x);
    m := CallMsg(xid, direction, rpcvers, prog, vers, proc, OpaqueAuth(flavor, body), verf);
  }

  // ----- encoding

  /** The bytes w have been written over s at p. */
  ghost predicate Filled(x: Stream, s: seq<Byte>, p: nat, w: seq<Byte>)
    reads x, x.data
  {
    |s| == x.data.Length && p + |w| <= |s| && x.data[..] == Splice(s, p, w)
  }

  /** The header words of a message that may be sent, one after the other. */
  method PutHeader(x: Stream, m: CallMsg, ghost s: seq<Byte>) returns (ok: bool)
    requires x.Valid() && s == x.data[..]
    modifies x`pos, x.data
    ensures x.Valid() && ok == (m.direction == CALL && m.rpcvers == RPC_MSG_VERSION && old(x.pos) + 24 <= x.data.Length)
    ensures ok ==> x.pos == old(x.pos) + 24 && Filled(x, s, old(x.pos), HeaderLayout(m))
  {
    hide Word, HeaderLayout;
    ghost var p, w := x.pos, [];
    ok := x.PutWord(m.xid, s, p, w);
    if !ok { return; }
    w := w + Word(m.xid);
    ok := x.PutWord(m.direction, s, p, w);
    if !ok || m.direction != CALL { return false; }
    w := w + Word(m.direction);
    ok := x.PutWord(m.rpcvers, s, p, w);
    if !ok || m.rpcvers != RPC_MSG_VERSION { return false; }
    w := w + Word(m.rpcvers);
    ok := x.PutWord(m.prog, s, p, w);
    if !ok { return; }
    w := w + Word(m.prog);
    ok := x.PutWord(m.vers, s, p, w);
    if !ok { return; }
    w := w + Word(m.vers);
    ok := x.PutWord(m.proc, s, p, w);
    HeaderWords(m, w);
  }

  lemma HeaderWords(m: CallMsg, w: seq<Byte>)
    requires w == [] + Word(m.xid) + Word(m.direction) + Word(m.rpcvers) + Word(m.prog) + Word(m.vers)
    ensures w + Word(m.proc) == HeaderLayout(m)
  {}

  /** xdr_opaque_auth on a stream that is written. */
  method PutAuth(x: Stream, a: OpaqueAuth, ghost s: seq<Byte>, ghost p: nat, ghost w: seq<Byte>) returns (ok: bool)
    requires x.Valid() && |a.body| < 0x1_0000_0000 && Filled(x, s, p, w) && x.pos == p + |w|
    modifies x`pos, x.data
    ensures x.Valid() && ok == (|a.body| <= MAX_AUTH_BYTES && old(x.pos) + AuthSize(a) <= x.data.Length)
    ensures ok ==> x.pos == old(x.pos) + AuthSize(a) && Filled(x, s, p, w + AuthLayout(a, Zeros(|a.body|)))
  {
    hide Word, AuthLayout, AuthHead;
    ok := x.PutWord(a.flavor, s, p, w);
    if !ok { return; }
    ok := x.PutWord(|a.body|, s, p, w + Word(a.flavor));
    if !ok || |a.body| > MAX_AUTH_BYTES { return false; }
    ok := x.PutOpaque(a.body, s, p, w + Word(a.flavor) + Word(|a.body|));
    AuthParts(w, a, Zeros(|a.body|));
  }

  lemma AuthParts(w: seq<Byte>, a: OpaqueAuth, pad: seq<Byte>)
    requires |a.body| <= MAX_AUTH_BYTES
    ensures w + Word(a.flavor) + Word(|a.body|) + a.body + pad == w + AuthLayout(a, pad)
  {}

  /** The header words in place, at `at`. */
  method StoreHeader(x: Stream, m: CallMsg, at: nat, ghost s: seq<Byte>) returns (ok: bool)
    requires at + 24 <= x.data.Length && s == x.data[..]
    modifies x.data
    ensures ok == (m.direction == CALL && m.rpcvers == RPC_MSG_VERSION)
    ensures ok ==> Filled(x, s, at, HeaderLayout(m))
  {
    hide Word, HeaderLayout;
    ghost var w := [];
    x.Store(Word(m.xid), at, s, at, w);
    w := w + Word(m.xid);
    x.Store(Word(m.direction), at + 4, s, at, w);
    if m.direction != CALL { return false; }
    w := w + Word(m.direction);
    x.Store(Word(m.rpcvers), at + 8, s, at, w);
    if m.rpcvers != RPC_MSG_VERSION { return false; }
    w := w + Word(m.rpcvers);
    x.Store(Word(m.prog), at + 12, s, at, w);
    w := w + Word(m.prog);
    x.Store(Word(m.vers), at + 16, s, at, w);
    w := w + Word(m.vers);
    x.Store(Word(m.proc), at + 20, s, at, w);
    HeaderWords(m, w);
    ok := true;
  }

  /** An authenticator in place; the padding keeps the bytes that are there. */
  method StoreAuth(x: Stream, a: OpaqueAuth, at: nat, ghost s: seq<Byte>, ghost p: nat, ghost w: seq<Byte>)
    returns (ghost pad: seq<Byte>)
    requires |a.body| <= MAX_AUTH_BYTES && Filled(x, s, p, w) && at == p + |w| && at + AuthSize(a) <= x.data.Length
    modifies x.data
    ensures PaddingOf(pad, |a.body|) && |AuthLayout(a, pad)| == AuthSize(a) && Filled(x, s, p, w + AuthLayout(a, pad))
  {
    hide Word, AuthLayout, AuthHead, Splice;
    ghost var h := w + Word(a.flavor) + Word(|a.body|);
    x.Store(Word(a.flavor), at, s, p, w);
    x.Store(Word(|a.body|), at + 4, s, p, w + Word(a.flavor));
    if a.body != [] {
      x.Store(a.body, at + 8, s, p, h);
    } else {
      assert h + a.body == h;
    }
    pad := KeptPadding(s, p, w, a);
  }

  /** The bytes behind the body that round it up stay as they are. */
  lemma KeptPadding(s: seq<Byte>, p: nat, w: seq<Byte>, a: OpaqueAuth) returns (pad: seq<Byte>)
    requires |a.body| <= MAX_AUTH_BYTES && p + |w| + AuthSize(a) <= |s|
    ensures PaddingOf(pad, |a.body|) && |AuthLayout(a, pad)| == AuthSize(a)
    ensures Splice(s, p, w + Word(a.flavor) + Word(|a.body|) + a.body) == Splice(s, p, w + AuthLayout(a, pad))
  {
    hide Word, AuthLayout;
    var n, h := |a.body|, w + Word(a.flavor) + Word(|a.body|) + a.body;
    pad := s[p + |h|..p + |h| + (RoundUp(n) - n)];
    SpliceSame(s, p, h, RoundUp(n) - n);
    AuthParts(w, a, pad);
    LayoutSize(a, pad);
  }

  /** The plain path of xdr_callmsg. */
  method PutCallPlain(x: Stream, m: CallMsg) returns (ok: bool)
    requires x.Valid() && |m.cred.body| <= MAX_AUTH_BYTES && |m.verf.body| <= MAX_AUTH_BYTES
    modifies x`pos, x.data
    ensures x.Valid() && ok == (Encodable(m) && old(x.pos) + CallSize(m) <= x.data.Length)
    ensures ok ==> x.pos == old(x.pos) + CallSize(m)
    ensures ok ==> Filled(x, old(x.data[..]), old(x.pos), Layout(m, Zeros(|m.cred.body|), Zeros(|m.verf.body|)))
  {
    hide AuthLayout, HeaderLayout;
    ghost var s, p := x.data[..], x.pos;
    ok := PutHeader(x, m, s);
    if !ok { return; }
    LayoutSize(m.cred, Zeros(|m.cred.body|));
    ok := PutAuth(x, m.cred, s, p, HeaderLayout(m));
    if !ok { return; }
    ok := PutAuth(x, m.verf, s, p, HeaderLayout(m) + AuthLayout(m.cred, Zeros(|m.cred.body|)));
  }

  /** xdr_callmsg on a stream that is written: what the stream grants in place decides about the padding bytes and
      nothing else. */
  method PutCall(x: Stream, m: CallMsg) returns (ok: bool, ghost pad1: seq<Byte>, ghost pad2: seq<Byte>)
    requires x.Valid()
    modifies x`pos, x`grants, x.data
    ensures x.Valid() && ok == (Encodable(m) && old(x.pos) + CallSize(m) <= x.data.Length)
    ensures ok ==> PaddingOf(pad1, |m.cred.body|) && PaddingOf(pad2, |m.verf.body|) && x.pos == old(x.pos) + CallSize(m)
    ensures ok ==> Filled(x, old(x.data[..]), old(x.pos), Layout(m, pad1, pad2))
  {
    hide AuthLayout, HeaderLayout;
    ghost var s, p := x.data[..], x.pos;
    pad1, pad2 := Zeros(|m.cred.body|), Zeros(|m.verf.body|);
    if |m.cred.body| > MAX_AUTH_BYTES || |m.verf.body| > MAX_AUTH_BYTES { return false, pad1, pad2; }
    var buf := x.Inline(32 + RoundUp(|m.cred.body|) + 8 + RoundUp(|m.verf.body|));
    if buf == -1 {
      ok := PutCallPlain(x, m);
      return;
    }
    ok := StoreHeader(x, m, buf, s);
    if !ok { return; }
    pad1 := StoreAuth(x, m.cred, buf + 24, s, p, HeaderLayout(m));
    pad2 := StoreAuth(x, m.verf, buf + 24 + AuthSize(m.cred), s, p, HeaderLayout(m) + AuthLayout(m.cred, pad1));
  }

  /** Encoding, then decoding from the same place, whichever path either takes. */
  method EncodeThenDecode(x: Stream, m: CallMsg) returns (ok: bool, r: CallMsg)
    requires x.Valid()
    modifies x`pos, x`grants, x.data
    ensures ok == (Encodable(m) && old(x.pos) + CallSize(m) <= x.data.Length)
    ensures ok ==> r == m && x.pos == old(x.pos) + CallSize(m)
  {
    hide Layout, Encodable, ParseCall, CallSize;
    r := NO_MESSAGE;
    var start := x.pos;
    ghost var s, pad1, pad2 := x.data[..], [], [];
    ok, pad1, pad2 := PutCall(x, m);
    if !ok { return; }
    FilledParses(x.data[..], s, start, m, pad1, pad2);
    x.pos := start;
    ok, r := GetCall(x);
  }

  lemma FilledParses(d: seq<Byte>, s: seq<Byte>, p: nat, m: CallMsg, pad1: seq<Byte>, pad2: seq<Byte>)
    requires Encodable(m) && PaddingOf(pad1, |m.cred.body|) && PaddingOf(pad2, |m.verf.body|)
    requires p + |Layout(m, pad1, pad2)| <= |s| && d == Splice(s, p, Layout(m, pad1, pad2))
    ensures ParseCall(d, p) == Parsed(m, p + CallSize(m))
  {
    RoundTrip(s[..p], m, pad1, pad2, s[p + |Layout(m, pad1, pad2)|..]);
  }
}
