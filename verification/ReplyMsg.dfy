/** Reply messages: libsrc/rpc_prot.c. */
module ReplyMsg {
  import opened Basics
  import opened Xdr
  import opened Calls = CallMsg

  const REPLY: U32 := 1
  const MSG_ACCEPTED: U32 := 0
  const MSG_DENIED: U32 := 1
  const SUCCESS: U32 := 0
  const PROG_UNAVAIL: U32 := 1
  const PROG_MISMATCH: U32 := 2
  const PROC_UNAVAIL: U32 := 3
  const GARBAGE_ARGS: U32 := 4
  const SYSTEM_ERR: U32 := 5
  const RPC_MISMATCH: U32 := 0
  const AUTH_ERROR: U32 := 1

  /** The results of a call are opaque bytes here. */
  datatype Accepted = Success(results: seq<Byte>) | ProgMismatch(low: U32, high: U32) | OtherAccept(stat: U32)
  datatype Rejected = RpcMismatch(low: U32, high: U32) | AuthError(why: U32) | OtherReject(stat: U32)
  datatype Body = MsgAccepted(verf: OpaqueAuth, accepted: Accepted) | MsgDenied(rejected: Rejected) | OtherReply(stat: U32)
  datatype Reply = Reply(xid: U32, direction: U32, body: Body)

  // ----- the format (section 9 of RFC 5531)

  function AcceptStat(a: Accepted): U32 {
    match a case Success(_) => SUCCESS case ProgMismatch(_, _) => PROG_MISMATCH case OtherAccept(s) => s
  }

  /** A union's arm belongs to its discriminant. */
  predicate Proper(r: Reply) {
    match r.body
    case MsgAccepted(_, a) => a.OtherAccept? ==> a.stat != SUCCESS && a.stat != PROG_MISMATCH
    case MsgDenied(d) => d.OtherReject? ==> d.stat != RPC_MISMATCH && d.stat != AUTH_ERROR
    case OtherReply(s) => s != MSG_ACCEPTED && s != MSG_DENIED
  }

  /** What is encoded and decoded at all. */
  predicate Sendable(r: Reply) {
    && r.direction == REPLY && Proper(r)
    && match r.body
       case MsgAccepted(v, _) => |v.body| <= MAX_AUTH_BYTES
       case MsgDenied(d) => !d.OtherReject?
       case OtherReply(_) => false
  }

  /** pad follows the results. */
  function AcceptedLayout(a: Accepted, pad: seq<Byte>): seq<Byte> {
    Word(AcceptStat(a)) +
    match a
    case Success(b) => b + pad
    case ProgMismatch(low, high) => Word(low) + Word(high)
    case OtherAccept(_) => []
  }

  function RejectedLayout(d: Rejected): seq<Byte> {
    match d
    case RpcMismatch(low, high) => Word(RPC_MISMATCH) + Word(low) + Word(high)
    case AuthError(why) => Word(AUTH_ERROR) + Word(why)
    case OtherReject(s) => Word(s)
  }

  function BodyLayout(b: Body, pad1: seq<Byte>, pad2: seq<Byte>): seq<Byte>
    requires b.MsgAccepted? ==> |b.verf.body| <= MAX_AUTH_BYTES
  {
    match b
    case MsgAccepted(v, a) => Word(MSG_ACCEPTED) + AuthLayout(v, pad1) + AcceptedLayout(a, pad2)
    case MsgDenied(d) => Word(MSG_DENIED) + RejectedLayout(d)
    case OtherReply(s) => Word(s)
  }

  /** The paddings of the verifier and of the results, where there are any. */
  predicate Paddings(b: Body, pad1: seq<Byte>, pad2: seq<Byte>) {
    b.MsgAccepted? ==>
      PaddingOf(pad1, |b.verf.body|) && (b.accepted.Success? ==> PaddingOf(pad2, |b.accepted.results|))
  }

  function PaddedLayout(r: Reply, pad1: seq<Byte>, pad2: seq<Byte>): seq<Byte>
    requires Sendable(r)
  {
    Word(r.xid) + Word(r.direction) + BodyLayout(r.body, pad1, pad2)
  }

  function ResultZeros(a: Accepted): seq<Byte> {
    if a.Success? then Zeros(|a.results|) else []
  }

  function ZeroBodyLayout(b: Body): seq<Byte>
    requires b.MsgAccepted? ==> |b.verf.body| <= MAX_AUTH_BYTES
  {
    if b.MsgAccepted? then BodyLayout(b, Zeros(|b.verf.body|), ResultZeros(b.accepted)) else BodyLayout(b, [], [])
  }

  /** The bytes of a reply as it is encoded. */
  function Layout(r: Reply): seq<Byte>
    requires Sendable(r)
  {
    Word(r.xid) + Word(r.direction) + ZeroBodyLayout(r.body)
  }

  function ParseAccepted(s: seq<Byte>, p: nat, n: nat): Parsed<Accepted> {
    if p + 4 > |s| then Malformed
    else if WordAt(s, p) == SUCCESS then
      if p + 4 + RoundUp(n) > |s| then Malformed else Parsed(Success(s[p + 4..p + 4 + n]), p + 4 + RoundUp(n))
    else if WordAt(s, p) == PROG_MISMATCH then
      if p + 12 > |s| then Malformed else Parsed(ProgMismatch(WordAt(s, p + 4), WordAt(s, p + 8)), p + 12)
    else Parsed(OtherAccept(WordAt(s, p)), p + 4)
  }

  function ParseRejected(s: seq<Byte>, p: nat): Parsed<Rejected> {
    if p + 4 > |s| then Malformed
    else if WordAt(s, p) == RPC_MISMATCH then
      if p + 12 > |s| then Malformed else Parsed(RpcMismatch(WordAt(s, p + 4), WordAt(s, p + 8)), p + 12)
    else if WordAt(s, p) == AUTH_ERROR then
      if p + 8 > |s| then Malformed else Parsed(AuthError(WordAt(s, p + 4)), p + 8)
    else Malformed
  }

  function ParseBody(s: seq<Byte>, p: nat, n: nat): Parsed<Body> {
    if p + 4 > |s| then Malformed
    else if WordAt(s, p) == MSG_ACCEPTED then
      var v := ParseAuth(s, p + 4);
      if v.Malformed? then Malformed
      else
        var a := ParseAccepted(s, v.next, n);
        if a.Malformed? then Malformed else Parsed(MsgAccepted(v.value, a.value), a.next)
    else if WordAt(s, p) == MSG_DENIED then
      var d := ParseRejected(s, p + 4);
      if d.Malformed? then Malformed else Parsed(MsgDenied(d.value), d.next)
    else Malformed
  }

  /** A reply whose results, if any, are n bytes. */
  function ParseReply(s: seq<Byte>, p: nat, n: nat): Parsed<Reply> {
    if p + 8 > |s| || WordAt(s, p + 4) != REPLY then Malformed
    else
      var b := ParseBody(s, p + 8, n);
      if b.Malformed? then Malformed else Parsed(Reply(WordAt(s, p), REPLY, b.value), b.next)
  }

  // ----- decoding what was encoded

  predicate ResultSize(b: Body, n: nat) {
    b.MsgAccepted? && b.accepted.Success? ==> |b.accepted.results| == n
  }

  lemma TwoWords(before: seq<Byte>, v: U32, w: U32, after: seq<Byte>, s: seq<Byte>, p: nat)
    requires s == before + (Word(v) + Word(w)) + after && p == |before|
    ensures p + 8 <= |s| && WordAt(s, p) == v && WordAt(s, p + 4) == w
  {
    ValueOfWord(v);
    ValueOfWord(w);
    assert s[p..p + 4] == Word(v) && s[p + 4..p + 8] == Word(w);
  }

  lemma AcceptedRoundTrip(before: seq<Byte>, a: Accepted, pad: seq<Byte>, after: seq<Byte>, n: nat)
    requires a.OtherAccept? ==> a.stat != SUCCESS && a.stat != PROG_MISMATCH
    requires a.Success? ==> |a.results| == n && PaddingOf(pad, n)
    ensures ParseAccepted(before + AcceptedLayout(a, pad) + after, |before|, n) ==
            Parsed(a, |before| + |AcceptedLayout(a, pad)|)
  {
    hide Word, WordAt;
    var s, p, w := before + AcceptedLayout(a, pad) + after, |before|, Word(AcceptStat(a));
    match a
    case Success(b) =>
      Regroup(before, w, b, pad, after);
      assert w + (b + pad) == w + b + pad;
      WordThere(before, SUCCESS, b + pad + after, s, p);
      assert s[p + 4..p + 4 + n] == b;
    case ProgMismatch(low, high) =>
      var l, h := Word(low), Word(high);
      Regroup(before, w, l, h, after);
      assert w + (l + h) == w + l + h;
      WordThere(before, PROG_MISMATCH, l + h + after, s, p);
      assert s == before + w + (l + h) + after;
      TwoWords(before + w, low, high, after, s, p + 4);
    case OtherAccept(stat) =>
      assert w + [] == w;
      WordThere(before, stat, after, s, p);
  }

  lemma RejectedRoundTrip(before: seq<Byte>, d: Rejected, after: seq<Byte>)
    requires !d.OtherReject?
    ensures ParseRejected(before + RejectedLayout(d) + after, |before|) == Parsed(d, |before| + |RejectedLayout(d)|)
  {
    hide Word, WordAt;
    var s, p := before + RejectedLayout(d) + after, |before|;
    match d
    case RpcMismatch(low, high) =>
      var w, l, h := Word(RPC_MISMATCH), Word(low), Word(high);
      Regroup(before, w, l, h, after);
      WordThere(before, RPC_MISMATCH, l + h + after, s, p);
      assert s == before + w + (l + h) + after;
      TwoWords(before + w, low, high, after, s, p + 4);
    case AuthError(why) =>
      TwoWords(before, AUTH_ERROR, why, after, s, p);
  }

  lemma BodyRoundTrip(before: seq<Byte>, b: Body, pad1: seq<Byte>, pad2: seq<Byte>, after: seq<Byte>, n: nat)
    requires Sendable(Reply(0, REPLY, b)) && ResultSize(b, n) && Paddings(b, pad1, pad2)
    ensures ParseBody(before + BodyLayout(b, pad1, pad2) + after, |before|, n) ==
            Parsed(b, |before| + |BodyLayout(b, pad1, pad2)|)
  {
    hide Word, WordAt, AuthLayout, AcceptedLayout, RejectedLayout, ParseAuth, ParseAccepted, ParseRejected;
    var s, p := before + BodyLayout(b, pad1, pad2) + after, |before|;
    if b.MsgAccepted? {
      var w, v, a := Word(MSG_ACCEPTED), AuthLayout(b.verf, pad1), AcceptedLayout(b.accepted, pad2);
      Regroup(before, w, v, a, after);
      WordThere(before, MSG_ACCEPTED, v + a + after, s, p);
      AuthRoundTrip(before + w, b.verf, pad1, a + after);
      LayoutSize(b.verf, pad1);
      AcceptedRoundTrip(before + w + v, b.accepted, pad2, after, n);
    } else {
      var w, d := Word(MSG_DENIED), RejectedLayout(b.rejected);
      assert s == before + w + (d + after);
      WordThere(before, MSG_DENIED, d + after, s, p);
      assert s == (before + w) + d + after;
      RejectedRoundTrip(before + w, b.rejected, after);
    }
  }

  /** Every reply that is encoded, whatever its padding, is decoded to itself, and to its end. */
  lemma RoundTrip(before: seq<Byte>, r: Reply, pad1: seq<Byte>, pad2: seq<Byte>, after: seq<Byte>, n: nat)
    requires Sendable(r) && ResultSize(r.body, n) && Paddings(r.body, pad1, pad2)
    ensures ParseReply(before + PaddedLayout(r, pad1, pad2) + after, |before|, n) ==
            Parsed(r, |before| + |PaddedLayout(r, pad1, pad2)|)
  {
    hide Word, WordAt, BodyLayout, ParseBody;
    var s, p := before + PaddedLayout(r, pad1, pad2) + after, |before|;
    var x, d, b := Word(r.xid), Word(r.direction), BodyLayout(r.body, pad1, pad2);
    Regroup(before, x, d, b, after);
    assert s == before + (x + d) + (b + after);
    TwoWords(before, r.xid, r.direction, b + after, s, p);
    BodyRoundTrip(before + x + d, r.body, pad1, pad2, after, n);
  }

  lemma ZeroPaddings(r: Reply) returns (pad1: seq<Byte>, pad2: seq<Byte>)
    requires Sendable(r)
    ensures Paddings(r.body, pad1, pad2) && Layout(r) == PaddedLayout(r, pad1, pad2)
  {
    hide Word, BodyLayout;
    pad1 := if r.body.MsgAccepted? then Zeros(|r.body.verf.body|) else [];
    pad2 := if r.body.MsgAccepted? then ResultZeros(r.body.accepted) else [];
  }

  // ----- only what is encoded is decoded

  lemma AcceptedSplit(s: seq<Byte>, p: nat, n: nat) returns (pad: seq<Byte>)
    requires ParseAccepted(s, p, n).Parsed?
    ensures var r := ParseAccepted(s, p, n); var a := r.value;
      && (a.OtherAccept? ==> a.stat != SUCCESS && a.stat != PROG_MISMATCH)
      && (a.Success? ==> |a.results| == n && PaddingOf(pad, n))
      && p + 4 <= r.next <= |s| && s[p..r.next] == AcceptedLayout(a, pad)
  {
    hide Word, WordAt;
    var r := ParseAccepted(s, p, n);
    WordSplit(s, p);
    pad := [];
    match r.value
    case Success(b) =>
      pad := s[p + 4 + n..r.next];
      Divide(s, p, p + 4, p + 4 + n, r.next);
      assert s[p..p + 4] + (b + pad) == s[p..p + 4] + b + pad;
    case ProgMismatch(_, _) =>
      WordSplit(s, p + 4);
      WordSplit(s, p + 8);
      Divide(s, p, p + 4, p + 8, p + 12);
      assert s[p..p + 4] + (s[p + 4..p + 8] + s[p + 8..p + 12]) == s[p..p + 4] + s[p + 4..p + 8] + s[p + 8..p + 12];
    case OtherAccept(_) =>
      assert s[p..p + 4] + [] == s[p..p + 4];
  }

  lemma RejectedSplit(s: seq<Byte>, p: nat)
    requires ParseRejected(s, p).Parsed?
    ensures var r := ParseRejected(s, p);
      !r.value.OtherReject? && p + 4 <= r.next <= |s| && s[p..r.next] == RejectedLayout(r.value)
  {
    hide Word, WordAt;
    var r := ParseRejected(s, p);
    WordSplit(s, p);
    WordSplit(s, p + 4);
    if r.value.RpcMismatch? {
      WordSplit(s, p + 8);
      Divide(s, p, p + 4, p + 8, p + 12);
    } else {
      Divide(s, p, p + 4, p + 8, p + 8);
    }
  }

  lemma BodySplit(s: seq<Byte>, p: nat, n: nat) returns (pad1: seq<Byte>, pad2: seq<Byte>)
    requires ParseBody(s, p, n).Parsed?
    ensures var r := ParseBody(s, p, n);
      && Sendable(Reply(0, REPLY, r.value)) && ResultSize(r.value, n) && Paddings(r.value, pad1, pad2)
      && p + 4 <= r.next <= |s| && s[p..r.next] == BodyLayout(r.value, pad1, pad2)
  {
    hide Word, WordAt, AuthLayout, AcceptedLayout, RejectedLayout, ParseAuth, ParseAccepted, ParseRejected;
    var r := ParseBody(s, p, n);
    WordSplit(s, p);
    pad1, pad2 := [], [];
    if r.value.MsgAccepted? {
      var v := ParseAuth(s, p + 4);
      ParsedAuthIsLaidOut(s, p + 4);
      pad1 := s[p + 12 + |v.value.body|..v.next];
      pad2 := AcceptedSplit(s, v.next, n);
      Divide(s, p, p + 4, v.next, r.next);
    } else {
      RejectedSplit(s, p + 4);
      Divide(s, p, p + 4, r.next, r.next);
    }
  }

  /** Only the bytes of a reply that may be sent, with some padding, are decoded. */
  lemma OnlyLayoutsParse(s: seq<Byte>, p: nat, n: nat) returns (pad1: seq<Byte>, pad2: seq<Byte>)
    requires ParseReply(s, p, n).Parsed?
    ensures var r := ParseReply(s, p, n);
      && Sendable(r.value) && ResultSize(r.value.body, n) && Paddings(r.value.body, pad1, pad2)
      && p <= r.next <= |s| && s[p..r.next] == PaddedLayout(r.value, pad1, pad2)
  {
    hide Word, WordAt, BodyLayout, ParseBody;
    WordSplit(s, p);
    WordSplit(s, p + 4);
    pad1, pad2 := BodySplit(s, p + 8, n);
    Divide(s, p, p + 4, p + 8, ParseReply(s, p, n).next);
  }

  // ----- xdr_replymsg on a stream that is written

  method PutAccepted(x: Stream, a: Accepted, ghost s: seq<Byte>, ghost p: nat, ghost w: seq<Byte>) returns (ok: bool)
    requires x.Valid() && Filled(x, s, p, w) && x.pos == p + |w|
    modifies x`pos, x.data
    ensures x.Valid() && ok == (old(x.pos) + |AcceptedLayout(a, ResultZeros(a))| <= x.data.Length)
    ensures ok ==> x.pos == old(x.pos) + |AcceptedLayout(a, ResultZeros(a))| && Filled(x, s, p, w + AcceptedLayout(a, ResultZeros(a)))
  {
    hide Word, Zeros, Splice, RoundUp;
    ghost var h := Word(AcceptStat(a));
    ok := x.PutWord(AcceptStat(a), s, p, w);
    if !ok { return; }
    match a {
      case Success(results) =>
        ok := x.PutOpaque(results, s, p, w + h);
        Append(w, h, results, Zeros(|results|));
      case ProgMismatch(low, high) =>
        ok := x.PutWord(low, s, p, w + h);
        if !ok { return; }
        ok := x.PutWord(high, s, p, w + h + Word(low));
        Append(w, h, Word(low), Word(high));
      case OtherAccept(_) =>
        Append(w, h, [], []);
    }
  }

  method PutRejected(x: Stream, d: Rejected, ghost s: seq<Byte>, ghost p: nat, ghost w: seq<Byte>) returns (ok: bool)
    requires x.Valid() && Filled(x, s, p, w) && x.pos == p + |w|
    modifies x`pos, x.data
    ensures x.Valid() && ok == (!d.OtherReject? && old(x.pos) + |RejectedLayout(d)| <= x.data.Length)
    ensures ok ==> x.pos == old(x.pos) + |RejectedLayout(d)| && Filled(x, s, p, w + RejectedLayout(d))
  {
    hide Word, Splice;
    match d {
      case RpcMismatch(low, high) =>
        ghost var h := Word(RPC_MISMATCH);
        ok := x.PutWord(RPC_MISMATCH, s, p, w);
        if !ok { return; }
        ok := x.PutWord(low, s, p, w + h);
        if !ok { return; }
        ok := x.PutWord(high, s, p, w + h + Word(low));
        Append(w, h, Word(low), Word(high));
      case AuthError(why) =>
        ghost var h := Word(AUTH_ERROR);
        ok := x.PutWord(AUTH_ERROR, s, p, w);
        if !ok { return; }
        ok := x.PutWord(why, s, p, w + h);
        Append(w, h, Word(why), []);
      case OtherReject(stat) =>
        ok := x.PutWord(stat, s, p, w);
        ok := false;
    }
  }

  lemma Append(w: seq<Byte>, a: seq<Byte>, b: seq<Byte>, c: seq<Byte>)
    ensures w + (a + b + c) == w + a + b + c && w + (a + b) == w + a + b && w + (a + (b + c)) == w + a + b + c
  {}

  predicate SendableBody(b: Body) {
    match b
    case MsgAccepted(v, _) => |v.body| <= MAX_AUTH_BYTES
    case MsgDenied(d) => !d.OtherReject?
    case OtherReply(_) => false
  }

  method PutBody(x: Stream, b: Body, ghost s: seq<Byte>, ghost p: nat, ghost w: seq<Byte>) returns (ok: bool)
    requires x.Valid() && Filled(x, s, p, w) && x.pos == p + |w|
    requires b.MsgAccepted? ==> |b.verf.body| < 0x1_0000_0000
    modifies x`pos, x.data
    ensures x.Valid() && ok == (SendableBody(b) && old(x.pos) + |ZeroBodyLayout(b)| <= x.data.Length)
    ensures ok ==> x.pos == old(x.pos) + |ZeroBodyLayout(b)| && Filled(x, s, p, w + ZeroBodyLayout(b))
  {
    hide Word, Zeros, AuthLayout, AcceptedLayout, RejectedLayout, Splice, RoundUp;
    match b {
      case MsgAccepted(v, a) =>
        ghost var h := Word(MSG_ACCEPTED);
        ok := x.PutWord(MSG_ACCEPTED, s, p, w);
        if !ok { return; }
        if |v.body| <= MAX_AUTH_BYTES { LayoutSize(v, Zeros(|v.body|)); }
        ok := PutAuth(x, v, s, p, w + h);
        if !ok { return; }
        ghost var l := AuthLayout(v, Zeros(|v.body|));
        ok := PutAccepted(x, a, s, p, w + h + l);
        Append(w, h, l, AcceptedLayout(a, ResultZeros(a)));
      case MsgDenied(d) =>
        ghost var h := Word(MSG_DENIED);
        ok := x.PutWord(MSG_DENIED, s, p, w);
        if !ok { return; }
        ok := PutRejected(x, d, s, p, w + h);
        Append(w, h, RejectedLayout(d), []);
      case OtherReply(stat) =>
        ok := x.PutWord(stat, s, p, w);
        ok := false;
    }
  }

  /** xdr_replymsg on a stream that is written. */
  method PutReply(x: Stream, r: Reply) returns (ok: bool)
    requires x.Valid() && Proper(r) && (r.body.MsgAccepted? ==> |r.body.verf.body| < 0x1_0000_0000)
    modifies x`pos, x.data
    ensures x.Valid() && ok == (Sendable(r) && old(x.pos) + |Layout(r)| <= x.data.Length)
    ensures ok ==> x.pos == old(x.pos) + |Layout(r)| && Filled(x, old(x.data[..]), old(x.pos), Layout(r))
  {
    hide Word, ZeroBodyLayout;
    ghost var s, p, w := x.data[..], x.pos, Word(r.xid);
    ok := x.PutWord(r.xid, s, p, []);
    if !ok { return; }
    assert [] + w == w;
    ok := x.PutWord(r.direction, s, p, w);
    if !ok || r.direction != REPLY { return false; }
    ok := PutBody(x, r.body, s, p, w + Word(r.direction));
  }

  // ----- xdr_replymsg on a stream that is read

  method GetAccepted(x: Stream, n: nat) returns (ok: bool, a: Accepted)
    requires x.Valid()
    modifies x`pos
    ensures x.Valid() && ok == ParseAccepted(x.data[..], old(x.pos), n).Parsed?
    ensures ok ==> ParseAccepted(x.data[..], old(x.pos), n) == Parsed(a, x.pos)
  {
    hide WordAt, RoundUp;
    a := OtherAccept(0);
    var stat, low, high, results;
    ok, stat := x.GetWord();
    if !ok { return; }
    if stat == SUCCESS {
      ok, results := x.GetOpaque(n);
      a := Success(results);
    } else if stat == PROG_MISMATCH {
      ok, low := x.GetWord();
      if !ok { return; }
      ok, high := x.GetWord();
      a := ProgMismatch(low, high);
    } else {
      a := OtherAccept(stat);
    }
  }

  method GetRejected(x: Stream) returns (ok: bool, d: Rejected)
    requires x.Valid()
    modifies x`pos
    ensures x.Valid() && ok == ParseRejected(x.data[..], old(x.pos)).Parsed?
    ensures ok ==> ParseRejected(x.data[..], old(x.pos)) == Parsed(d, x.pos)
  {
    hide WordAt;
    d := OtherReject(0);
    var stat, low, high;
    ok, stat := x.GetWord();
    if !ok { return; }
    if stat == RPC_MISMATCH {
      ok, low := x.GetWord();
      if !ok { return; }
      ok, high := x.GetWord();
      d := RpcMismatch(low, high);
    } else if stat == AUTH_ERROR {
      ok, low := x.GetWord();
      d := AuthError(low);
    } else {
      ok := false;
    }
  }

  method GetReply(x: Stream, n: nat) returns (ok: bool, r: Reply)
    requires x.Valid()
    modifies x`pos
    ensures x.Valid() && ok == ParseReply(x.data[..], old(x.pos), n).Parsed?
    ensures ok ==> ParseReply(x.data[..], old(x.pos), n) == Parsed(r, x.pos)
  {
    hide WordAt, ParseAuth, ParseAccepted, ParseRejected;
    r := Reply(0, 0, OtherReply(2));
    var xid, direction, stat, verf, a, d;
    ok, xid := x.GetWord();
    if !ok { return; }
    ok, direction := x.GetWord();
    if !ok { return; }
    if direction != REPLY { return false, r; }
    ok, stat := x.GetWord();
    if !ok { return; }
    if stat == MSG_ACCEPTED {
      ok, verf := GetAuth(x);
      if !ok { return; }
      ok, a := GetAccepted(x, n);
      r := Reply(xid, direction, MsgAccepted(verf, a));
    } else if stat == MSG_DENIED {
      ok, d := GetRejected(x);
      r := Reply(xid, direction, MsgDenied(d));
    } else {
      ok := false;
    }
  }

  // ----- _seterr_reply

  datatype ClntStat =
    | RpcSuccess | RpcVersMismatch | RpcAuthError | RpcProgUnavail | RpcProgVersMismatch | RpcProcUnavail
    | RpcCantDecodeArgs | RpcSystemError | RpcCantDecodeRes | RpcFailed

  /** The client's error record. */
  class RpcErr {
    var status: ClntStat
    var low: U32
    var high: U32
    var why: U32
    var s1: U32
    var s2: U32

    constructor () {
      status, low, high, why, s1, s2 := RpcSuccess, 0, 0, 0, 0, 0;
    }
  }

  /** What a reply means to the client. */
  function Meaning(b: Body): ClntStat {
    match b
    case MsgAccepted(_, Success(_)) => RpcSuccess
    case MsgAccepted(_, ProgMismatch(_, _)) => RpcProgVersMismatch
    case MsgAccepted(_, OtherAccept(s)) =>
      if s == PROG_UNAVAIL then RpcProgUnavail
      else if s == PROC_UNAVAIL then RpcProcUnavail
      else if s == GARBAGE_ARGS then RpcCantDecodeArgs
      else if s == SYSTEM_ERR then RpcSystemError
      else RpcFailed
    case MsgDenied(RpcMismatch(_, _)) => RpcVersMismatch
    case MsgDenied(AuthError(_)) => RpcAuthError
    case _ => RpcFailed
  }

  /** What the status words of a reply's bytes mean (section 9 of RFC 5531): in an accepted reply the word behind the
      verifier, in a denied one the fourth word. */
  predicate Signifies(s: seq<Byte>, stat: ClntStat) {
    && |s| >= 16 && (WordAt(s, 8) == 0 || WordAt(s, 8) == 1)
    && (WordAt(s, 8) == 0 ==>
          && |s| >= 20 && |s| >= 24 + RoundUp(WordAt(s, 16))
          && var w := WordAt(s, 20 + RoundUp(WordAt(s, 16)));
             stat == if w == 0 then RpcSuccess
                     else if w == 1 then RpcProgUnavail
                     else if w == 2 then RpcProgVersMismatch
                     else if w == 3 then RpcProcUnavail
                     else if w == 4 then RpcCantDecodeArgs
                     else if w == 5 then RpcSystemError
                     else RpcFailed)
    && (WordAt(s, 8) == 1 ==>
          (WordAt(s, 12) == 0 && stat == RpcVersMismatch) || (WordAt(s, 12) == 1 && stat == RpcAuthError))
  }

  /** What is decoded as a reply: its type and the two status words are known, the verifier is complete, and so is what
      belongs to the status. */
  lemma ReplyInBytes(s: seq<Byte>, n: nat)
    ensures ParseReply(s, 0, n).Parsed? <==>
      && |s| >= 16 && WordAt(s, 4) == 1
      && if WordAt(s, 8) == 0 then
           && AuthAt(s, 12)
           && var q := 20 + RoundUp(WordAt(s, 16));
              && q + 4 <= |s| && (WordAt(s, q) == 0 ==> q + 4 + RoundUp(n) <= |s|)
              && (WordAt(s, q) == 2 ==> q + 12 <= |s|)
         else WordAt(s, 8) == 1 && ((WordAt(s, 12) == 0 && |s| >= 24) || (WordAt(s, 12) == 1 && |s| >= 20))
  {
    hide WordAt, RoundUp;
  }

  lemma MeaningInBytes(s: seq<Byte>, n: nat)
    requires ParseReply(s, 0, n).Parsed?
    ensures Signifies(s, Meaning(ParseReply(s, 0, n).value.body))
    ensures WordAt(s, 4) == 1 && ParseReply(s, 0, n).value.xid == WordAt(s, 0)
    ensures match ParseReply(s, 0, n).value.body
      case MsgAccepted(_, ProgMismatch(low, high)) =>
        var p := 24 + RoundUp(WordAt(s, 16));
        p + 8 <= |s| && low == WordAt(s, p) && high == WordAt(s, p + 4)
      case MsgDenied(RpcMismatch(low, high)) => |s| >= 24 && low == WordAt(s, 16) && high == WordAt(s, 20)
      case MsgDenied(AuthError(why)) => |s| >= 20 && why == WordAt(s, 16)
      case _ => true
  {
    hide WordAt, RoundUp;
  }

  method SetAccepted(stat: U32, error: RpcErr)
    modifies error
    ensures error.low == old(error.low) && error.high == old(error.high) && error.why == old(error.why)
    ensures error.status ==
      if stat == SUCCESS then RpcSuccess
      else if stat == PROG_MISMATCH then RpcProgVersMismatch
      else Meaning(MsgAccepted(NONE, OtherAccept(stat)))
    ensures error.status == RpcFailed ==> error.s1 == MSG_ACCEPTED && error.s2 == stat
  {
    if stat == PROG_UNAVAIL { error.status := RpcProgUnavail; return; }
    if stat == PROG_MISMATCH { error.status := RpcProgVersMismatch; return; }
    if stat == PROC_UNAVAIL { error.status := RpcProcUnavail; return; }
    if stat == GARBAGE_ARGS { error.status := RpcCantDecodeArgs; return; }
    if stat == SYSTEM_ERR { error.status := RpcSystemError; return; }
    if stat == SUCCESS { error.status := RpcSuccess; return; }
    error.status, error.s1, error.s2 := RpcFailed, MSG_ACCEPTED, stat;
  }

  function RejectStat(d: Rejected): U32 {
    match d case RpcMismatch(_, _) => RPC_MISMATCH case AuthError(_) => AUTH_ERROR case OtherReject(s) => s
  }

  /** Fills in the status, and the fields that go with it. */
  method SetErrReply(r: Reply, error: RpcErr)
    requires Proper(r)
    modifies error
    ensures error.status == Meaning(r.body)
    ensures r.body.MsgAccepted? ==>
      match r.body.accepted
      case Success(_) => error.status == RpcSuccess
      case ProgMismatch(low, high) => error.status == RpcProgVersMismatch && error.low == low && error.high == high
      case OtherAccept(stat) =>
        if stat == 1 then error.status == RpcProgUnavail
        else if stat == 3 then error.status == RpcProcUnavail
        else if stat == 4 then error.status == RpcCantDecodeArgs
        else if stat == 5 then error.status == RpcSystemError
        else error.status == RpcFailed && error.s1 == 0 && error.s2 == stat
    ensures r.body.MsgDenied? ==>
      match r.body.rejected
      case RpcMismatch(low, high) => error.status == RpcVersMismatch && error.low == low && error.high == high
      case AuthError(why) => error.status == RpcAuthError && error.why == why
      case OtherReject(stat) => error.status == RpcFailed && error.s1 == 1 && error.s2 == stat
    ensures r.body.OtherReply? ==> error.status == RpcFailed && error.s1 == r.body.stat
  {
    match r.body {
      case MsgAccepted(_, a) =>
        if AcceptStat(a) == SUCCESS { error.status := RpcSuccess; return; }
        SetAccepted(AcceptStat(a), error);
        if a.ProgMismatch? { error.low, error.high := a.low, a.high; }
      case MsgDenied(d) =>
        if RejectStat(d) == RPC_MISMATCH {
          error.status, error.low, error.high := RpcVersMismatch, d.low, d.high;
        } else if RejectStat(d) == AUTH_ERROR {
          error.status, error.why := RpcAuthError, d.why;
        } else {
          error.status, error.s1, error.s2 := RpcFailed, MSG_DENIED, RejectStat(d);
        }
      case OtherReply(stat) =>
        error.status, error.s1 := RpcFailed, stat;
    }
  }
}
