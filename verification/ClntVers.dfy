/** Version negotiation between `clnt_create_vers` of libsrc/clnt_generic.c and a server's dispatch. */
module ClntVers {
  import opened Basics
  import opened Xdr
  import opened Calls = CallMsg
  import opened Replies = ReplyMsg
  import opened Dispatch

  const NULLPROC: U32 := 0

  /** The reply a server sends for an outcome; a served null procedure succeeds without results. */
  function ReplyTo(o: Outcome, xid: U32, verf: OpaqueAuth): Reply {
    Reply(xid, REPLY, MsgAccepted(verf,
      match o
      case Served(_) => Success([])
      case Mismatch(low, high) => ProgMismatch(low, high)
      case NoProgram => OtherAccept(PROG_UNAVAIL)))
  }

  /** A transport's side of an exchange: the server takes the call from its buffer and puts the reply into one. */
  method Serve(server: Callouts, request: Stream, verf: OpaqueAuth) returns (reply: Stream)
    requires request.Valid() && |verf.body| <= MAX_AUTH_BYTES && ParseCall(request.data[..], request.pos).Parsed?
    modifies request
    ensures fresh(reply) && fresh(reply.data) && reply.Valid() && reply.pos == 0
    ensures var m := old(ParseCall(request.data[..], request.pos)).value;
      var r := ReplyTo(Answer(server.head, m.prog, m.vers), m.xid, verf);
      Sendable(r) && ParseReply(reply.data[..], 0, 0) == Parsed(r, reply.data.Length)
    ensures var m := old(ParseCall(request.data[..], request.pos)).value;
      Signifies(reply.data[..], if m.vers in Versions(server.head, m.prog) then RpcSuccess
                                else if Versions(server.head, m.prog) == {} then RpcProgUnavail
                                else RpcProgVersMismatch)
  {
    hide ParseCall, ParseReply, Replies.Layout, Signifies;
    var ok, m := GetCall(request);
    var o := server.Dispatch(m.prog, m.vers);
    var r := ReplyTo(o, m.xid, verf);
    var data := new Byte[|Replies.Layout(r)|];
    reply := new Stream(data, []);
    ghost var s := data[..];
    ok := PutReply(reply, r);
    WholeReply(data[..], s, r);
    MeaningInBytes(data[..], 0);
    reply.pos := 0;
  }

  lemma WholeReply(d: seq<Byte>, s: seq<Byte>, r: Reply)
    requires Sendable(r) && ResultSize(r.body, 0) && |s| == |Replies.Layout(r)| && d == Splice(s, 0, Replies.Layout(r))
    ensures ParseReply(d, 0, 0) == Parsed(r, |d|)
  {
    hide Replies.Layout, PaddedLayout, ParseReply;
    assert d == [] + Replies.Layout(r) + [];
    var pad1, pad2 := ZeroPaddings(r);
    Replies.RoundTrip([], r, pad1, pad2, [], 0);
  }

  /** The bytes of a call to a null procedure. */
  function NullCallMessage(xid: U32, prog: U32, vers: U32, cred: OpaqueAuth, verf: OpaqueAuth): CallMsg {
    CallMsg(xid, CALL, RPC_MSG_VERSION, prog, vers, NULLPROC, cred, verf)
  }

  /** One call of the null procedure: the call travels to the server, the reply travels back. */
  method NullCall(server: Callouts, xid: U32, prog: U32, vers: U32, cred: OpaqueAuth, verf: OpaqueAuth,
          serverVerf: OpaqueAuth, grants: seq<bool>, error: RpcErr)
    returns (stat: ClntStat, ghost call: seq<Byte>)
    requires |cred.body| <= MAX_AUTH_BYTES && |verf.body| <= MAX_AUTH_BYTES && |serverVerf.body| <= MAX_AUTH_BYTES
    modifies error
    ensures stat == error.status == Meaning(ReplyTo(Answer(server.head, prog, vers), xid, serverVerf).body)
    ensures |call| >= 24 && WordAt(call, 0) == xid && WordAt(call, 12) == prog && WordAt(call, 16) == vers && WordAt(call, 20) == 0
    ensures stat == RpcProgUnavail <==> Versions(server.head, prog) == {}
    ensures stat == RpcSuccess <==> vers in Versions(server.head, prog)
    ensures stat == RpcProgVersMismatch <==> Versions(server.head, prog) != {} && vers !in Versions(server.head, prog)
    ensures stat == RpcProgVersMismatch ==>
      var v := Versions(server.head, prog); v != {} && error.low == Least(v) && error.high == Greatest(v)
  {
    hide ParseCall, ParseReply, Replies.Layout, Least, Greatest, Versions;
    var m := NullCallMessage(xid, prog, vers, cred, verf);
    var request := Marshal(m, grants);
    call := request.data[..];
    CallInBytes(call, 0);
    var reply := Serve(server, request, serverVerf);
    var ok, r := GetReply(reply, 0);
    SetErrReply(r, error);
    stat := error.status;
  }

  /** The call message in a buffer of its own. */
  method Marshal(m: CallMsg, grants: seq<bool>) returns (x: Stream)
    requires Encodable(m)
    ensures fresh(x) && fresh(x.data) && x.Valid() && x.pos == 0
    ensures ParseCall(x.data[..], 0) == Parsed(m, x.data.Length)
  {
    hide ParseCall, Calls.Layout, CallSize, Splice;
    var data := new Byte[CallSize(m)];
    x := new Stream(data, grants);
    ghost var s := data[..];
    ghost var pad1, pad2;
    var ok;
    ok, pad1, pad2 := PutCall(x, m);
    FilledParses(data[..], s, 0, m, pad1, pad2);
    x.pos := 0;
  }

  // ----- the negotiation

  /** The greatest version in v from low to high. */
  predicate HighestCommon(v: set<U32>, low: U32, high: U32, x: U32) {
    x in v && low <= x <= high && forall y :: y in v && low <= y <= high ==> y <= x
  }

  predicate HasCommon(v: set<U32>, low: U32, high: U32) {
    exists y :: y in v && low <= y <= high
  }

  /** The client's highest version falls into a gap of the server's versions, and a lower one would be common. */
  predicate Gap(v: set<U32>, low: U32, high: U32) {
    high !in v && HasCommon(v, low, high) && exists y :: y in v && y > high
  }

  /** What the negotiation agrees on. */
  function Agreed(v: set<U32>, low: U32, high: U32): Option<U32> {
    if high in v then Some(high)
    else if v != {} && low <= Greatest(v) < high then Some(Greatest(v))
    else None
  }

  method ClntCreateVers(server: Callouts, prog: U32, versLow: U32, versHigh: U32, xids: (U32, U32), cred: OpaqueAuth,
                        verf: OpaqueAuth, serverVerf: OpaqueAuth, grants: seq<bool>, error: RpcErr)
    returns (versOut: Option<U32>)
    requires |cred.body| <= MAX_AUTH_BYTES && |verf.body| <= MAX_AUTH_BYTES && |serverVerf.body| <= MAX_AUTH_BYTES
    modifies error
    ensures versOut == Agreed(Versions(server.head, prog), versLow, versHigh)
  {
    var low, high := versLow, versHigh;
    ghost var call;
    var stat;
    stat, call := NullCall(server, xids.0, prog, high, cred, verf, serverVerf, grants, error);
    if stat == RpcSuccess { return Some(high); }
    if stat == RpcProgVersMismatch {
      var minvers, maxvers := error.low, error.high;
      if maxvers < high { high := maxvers; }
      if minvers > low { low := minvers; }
      if low > high { return None; }
      stat, call := NullCall(server, xids.1, prog, high, cred, verf, serverVerf, grants, error);
      if stat == RpcSuccess { return Some(high); }
    }
    return None;
  }

  /** The negotiation finds the highest common version, and fails when there is none, unless the client's highest
      version is in a gap; then it fails although there is one. */
  lemma AgreedIsHighest(v: set<U32>, low: U32, high: U32)
    requires low <= high
    ensures !Gap(v, low, high) <==>
      match Agreed(v, low, high) case Some(x) => HighestCommon(v, low, high, x) case None => !HasCommon(v, low, high)
  {}

  ghost predicate Contiguous(v: set<U32>) {
    forall x, y, z: U32 :: x in v && z in v && x <= y <= z ==> y in v
  }

  /** A contiguous range of versions has no gap. */
  lemma ContiguousAgrees(v: set<U32>, low: U32, high: U32)
    requires low <= high && Contiguous(v)
    ensures match Agreed(v, low, high) case Some(x) => HighestCommon(v, low, high, x) case None => !HasCommon(v, low, high)
  {}

  /** Versions 2 and 4 on the server, 1 to 3 on the client. */
  lemma GapExists()
    ensures Gap({2, 4}, 1, 3) && Agreed({2, 4}, 1, 3) == None && HighestCommon({2, 4}, 1, 3, 2)
  {}
}
