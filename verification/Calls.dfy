/** A call from end to end (arpc.h, server.cc): from the bytes that a client marshals to the reply it understands,
    by program, version, procedure and arguments. */
module Calls {
  import opened Dispatch
  import opened Endian
  import opened RecordMarking
  import opened Reply
  import opened RpcMsg
  import opened UnionGen
  import opened Wrappers
  import opened Xdr
  import opened XdrKnown
  import opened XdrLaws
  import opened XdrPut
  import opened XdrSize

  /** The words of a call's header, as section 9 of RFC 5531 lays them out for AUTH_NONE, and the trace mode. */
  function CallWords(xid: u32, rpcvers: u32, prog: u32, vers: u32, proc: u32, mode: u32): seq<u32> {
    [xid, 0, rpcvers, prog, vers, proc, 0, 0, 0, 0, mode]
  }

  function CallBody(rpcvers: u32, prog: u32, vers: u32, proc: u32, mode: u32): Val {
    VSeq([VWord(rpcvers), VWord(prog), VWord(vers), VWord(proc), NO_AUTH, NO_AUTH, VWord(mode)])
  }

  /** The header of a call, as async_client_base::invoke() fills it in. */
  function CallHdr(xid: u32, rpcvers: u32, prog: u32, vers: u32, proc: u32, mode: u32): Val {
    VSeq([VWord(xid), VUnion(CALL, [CallBody(rpcvers, prog, vers, proc, mode)])])
  }

  lemma CallBodyIs(env: Env, rpcvers: u32, prog: u32, vers: u32, proc: u32, mode: u32)
    ensures Is(env, CALL_BODY, CallBody(rpcvers, prog, vers, proc, mode),
               Words([rpcvers, prog, vers, proc, 0, 0, 0, 0, mode]), 2)
  {
    hide Is, AreAll, Endian.BigEndian, Words;
    IsWord(env, Unsigned, mode, 1);
    AreOne(env, UINT, VWord(mode), BigEndian(mode), 1);
    WordsOne(mode);
    NoAuthIs(env, 0);
    WordsSplit([0, 0], [mode]);
    AreCons(env, OPAQUE_AUTH, NO_AUTH, Words([0, 0]), [UINT], [VWord(mode)], Words([mode]), 1);
    WordsSplit([0, 0], [0, 0] + [mode]);
    AreCons(env, OPAQUE_AUTH, NO_AUTH, Words([0, 0]), [OPAQUE_AUTH] + [UINT], [NO_AUTH] + [VWord(mode)],
            Words([0, 0] + [mode]), 1);
    var tys, vs := [OPAQUE_AUTH] + ([OPAQUE_AUTH] + [UINT]), [NO_AUTH] + ([NO_AUTH] + [VWord(mode)]);
    var ws := [0, 0] + ([0, 0] + [mode]);
    assert Words(ws) + [] == Words(ws);
    WordFirst(env, Unsigned, proc, tys, vs, ws, [], 1);
    WordFirst(env, Unsigned, vers, [UINT] + tys, [VWord(proc)] + vs, [proc] + ws, [], 1);
    WordFirst(env, Unsigned, prog, [UINT] + ([UINT] + tys), [VWord(vers)] + ([VWord(proc)] + vs),
              [vers] + ([proc] + ws), [], 1);
    CallFields(env, rpcvers, prog, vers, proc, mode);
  }

  lemma CallFields(env: Env, rpcvers: u32, prog: u32, vers: u32, proc: u32, mode: u32)
    requires var tys, vs := [OPAQUE_AUTH] + ([OPAQUE_AUTH] + [UINT]), [NO_AUTH] + ([NO_AUTH] + [VWord(mode)]);
      AreAll(env, [UINT] + ([UINT] + ([UINT] + tys)), [VWord(prog)] + ([VWord(vers)] + ([VWord(proc)] + vs)),
             Words([prog] + ([vers] + ([proc] + ([0, 0] + ([0, 0] + [mode]))))) + [], 1)
    ensures Is(env, CALL_BODY, CallBody(rpcvers, prog, vers, proc, mode),
               Words([rpcvers, prog, vers, proc, 0, 0, 0, 0, mode]), 2)
  {
    hide Is, AreAll, Endian.BigEndian, Words;
    var tys := [UINT] + ([UINT] + ([UINT] + ([OPAQUE_AUTH] + ([OPAQUE_AUTH] + [UINT]))));
    var vs := [VWord(prog)] + ([VWord(vers)] + ([VWord(proc)] + ([NO_AUTH] + ([NO_AUTH] + [VWord(mode)]))));
    var ws := [prog] + ([vers] + ([proc] + ([0, 0] + ([0, 0] + [mode]))));
    WordFirst(env, Unsigned, rpcvers, tys, vs, ws, [], 1);
    assert [UINT] + tys == CALL_BODY.fields;
    assert VSeq([VWord(rpcvers)] + vs) == CallBody(rpcvers, prog, vers, proc, mode);
    assert [rpcvers] + ws == [rpcvers, prog, vers, proc, 0, 0, 0, 0, mode];
    var s := Words([rpcvers] + ws);
    assert s + [] == s;
    IsStruct(env, CALL_BODY.fields, [VWord(rpcvers)] + vs, s, 1);
  }

  /** The header is marshaled as these words. */
  lemma CallIs(env: Env, xid: u32, rpcvers: u32, prog: u32, vers: u32, proc: u32, mode: u32)
    ensures Is(env, RPC_MSG, CallHdr(xid, rpcvers, prog, vers, proc, mode),
               Words(CallWords(xid, rpcvers, prog, vers, proc, mode)), 4)
  {
    hide Is, AreAll, Endian.BigEndian, Words, ChildTys, Select;
    var ws := [rpcvers, prog, vers, proc, 0, 0, 0, 0, mode];
    var body := CallBody(rpcvers, prog, vers, proc, mode);
    CallBodyIs(env, rpcvers, prog, vers, proc, mode);
    AreOne(env, CALL_BODY, body, Words(ws), 2);
    var arms := [Arm(CALL, CALL_BODY), Arm(REPLY, REPLY_BODY)];
    UnionChild(arms, 0, CALL);
    IsUnion(env, arms, CALL, [CALL_BODY], [body], Words(ws), 2);
    IsWord(env, Unsigned, xid, 3);
    AreTwo(env, UINT, VWord(xid), BigEndian(xid), BODY, VUnion(CALL, [body]), BigEndian(CALL) + Words(ws), 3);
    IsStruct(env, [UINT, BODY], [VWord(xid), VUnion(CALL, [body])], BigEndian(xid) + (BigEndian(CALL) + Words(ws)), 3);
    WordsCons(CALL, ws, []);
    WordsCons(xid, [CALL] + ws, []);
    assert forall s: seq<byte> :: s + [] == s;
    assert [xid] + ([CALL] + ws) == CallWords(xid, rpcvers, prog, vers, proc, mode);
  }

  /** A header of these words is that call, whatever follows it. */
  lemma CallRead(env: Env, xid: u32, rpcvers: u32, prog: u32, vers: u32, proc: u32, mode: u32, args: seq<byte>,
                 limit: nat)
    requires 4 <= limit
    ensures var d := Dec(env, false, RPC_MSG, Words(CallWords(xid, rpcvers, prog, vers, proc, mode)) + args, limit);
      d.Done? && d.rest == args && Open(d.value) == Call(xid, rpcvers, prog, vers, proc)
  {
    hide Dec, Enc, Typed, Within, Depth, Words;
    var hdr := CallHdr(xid, rpcvers, prog, vers, proc, mode);
    CallIs(env, xid, rpcvers, prog, vers, proc, mode);
    DecEnc(env, false, RPC_MSG, hdr, args, limit);
  }

  // ---- the arguments ---------------------------------------------------------

  /** The tuple that holds these arguments. */
  function Tuple(vs: seq<Val>): seq<Val> {
    if vs == [] then [] else [VSeq([vs[0]])] + Tuple(vs[1..])
  }

  lemma {:induction false} TupleHolds(vs: seq<Val>)
    ensures UnwrappedAll(Tuple(vs)) == vs
  {
    if vs != [] {
      TupleHolds(vs[1..]);
      assert Tuple(vs)[1..] == Tuple(vs[1..]);
      assert [vs[0]] + vs[1..] == vs;
    }
  }

  lemma DecOne(env: Env, ty: Ty, s: seq<byte>, limit: nat)
    requires limit > 0
    ensures var d, w := Dec(env, false, ty, s, limit - 1), Dec(env, false, TStruct([ty]), s, limit);
      if d.Done? then w == Done(VSeq([d.value]), d.rest) else w.Failed?
  {
    hide Dec, DecAll;
    DecNode(env, false, TStruct([ty]), s, limit);
    DecCons(env, false, [ty], s, limit - 1);
    assert [ty][1..] == [];
    if Dec(env, false, ty, s, limit - 1).Done? {
      var d := Dec(env, false, ty, s, limit - 1);
      AllNil(env, false, d.rest, limit - 1);
      assert [d.value] + [] == [d.value];
    }
  }

  /** Wrapped in transparent pointers, arguments are read as without them, but two levels deeper. */
  lemma {:induction false} DecWrapped(env: Env, tys: seq<Ty>, s: seq<byte>, limit: nat)
    requires limit > 0
    ensures var d, w := DecAll(env, false, tys, s, limit - 1), DecAll(env, false, Wrapped(tys), s, limit);
      if d.Done? then w == Done(Tuple(d.value), d.rest) else w.Failed?
    decreases tys
  {
    hide Dec, DecAll;
    if tys == [] {
      AllNil(env, false, s, limit);
      AllNil(env, false, s, limit - 1);
    } else {
      DecOne(env, tys[0], s, limit);
      DecCons(env, false, tys, s, limit - 1);
      DecCons(env, false, Wrapped(tys), s, limit);
      assert Wrapped(tys)[1..] == Wrapped(tys[1..]);
      var d := Dec(env, false, tys[0], s, limit - 1);
      if d.Done? {
        DecWrapped(env, tys[1..], d.rest, limit);
        var ds := DecAll(env, false, tys[1..], d.rest, limit - 1);
        if ds.Done? {
          assert ([d.value] + ds.value)[1..] == ds.value;
        }
      }
    }
  }

  /** The arguments that `s` is read as: all of it, with two levels of the limit spent on the tuple. */
  function ArgsIn(env: Env, tys: seq<Ty>, s: seq<byte>, limit: nat): Option<seq<Val>>
    requires 2 <= limit
  {
    var d := DecAll(env, false, tys, s, limit - 2);
    if d.Done? && d.rest == [] then Some(d.value) else None
  }

  /** Marshaled arguments are read as themselves, exactly if they are within their bounds and not too deep. */
  lemma ArgsRound(env: Env, tys: seq<Ty>, vs: seq<Val>, limit: nat)
    requires AllTyped(env, tys, vs) && 2 <= limit
    ensures ArgsIn(env, tys, EncAll(env, tys, vs), limit)
         == if AllWithin(env, true, tys, vs) && MaxDepth(vs) <= limit - 2 then Some(vs) else None
  {
    hide DecAll, EncAll, AllTyped, AllWithin, MaxDepth;
    DecEncAll(env, false, tys, vs, [], limit - 2);
    assert EncAll(env, tys, vs) + [] == EncAll(env, tys, vs);
  }

  lemma CallFateIs(xid: u32, proc: Proc, env: Env, s: seq<byte>, limit: nat)
    requires 2 <= limit
    ensures CallFate(xid, proc, env, s, limit) ==
      match ArgsIn(env, proc.args, s, limit)
      case None => BadArgs(xid)
      case Some(vs) => Served(xid, proc, vs)
  {
    hide Dec, DecAll;
    DecNode(env, false, TStruct(Wrapped(proc.args)), s, limit);
    DecWrapped(env, proc.args, s, limit - 1);
    var d := DecAll(env, false, proc.args, s, limit - 2);
    if d.Done? {
      TupleHolds(d.value);
    }
  }

  /** The procedure that a call names. */
  function ProcOf(servers: Registry, prog: u32, vers: u32, proc: u32): Option<Proc> {
    if prog in servers && vers in servers[prog] && proc in servers[prog][vers].procs then
      Some(servers[prog][vers].procs[proc])
    else None
  }

  lemma FateOfCall(servers: Registry, env: Env, xid: u32, rpcvers: u32, prog: u32, vers: u32, proc: u32, mode: u32,
                   args: seq<byte>, limit: nat)
    requires 4 <= limit
    ensures FateOf(servers, env, Words(CallWords(xid, rpcvers, prog, vers, proc, mode)) + args, limit)
      == if rpcvers != 2 then WrongRpcvers(xid)
         else if prog !in servers then NoProgram(xid)
         else if vers !in servers[prog] then NoVersion(xid, servers[prog].Keys)
         else if proc !in servers[prog][vers].procs then NoProcedure(xid)
         else
           match ArgsIn(env, servers[prog][vers].procs[proc].args, args, limit)
           case None => BadArgs(xid)
           case Some(vs) => Served(xid, servers[prog][vers].procs[proc], vs)
  {
    hide Dec, DecAll, CallFate, ArgsIn, CallWords, Words, Open;
    CallRead(env, xid, rpcvers, prog, vers, proc, mode, args, limit);
    if prog in servers && vers in servers[prog] && proc in servers[prog][vers].procs {
      CallFateIs(xid, servers[prog][vers].procs[proc], env, args, limit);
    }
  }

  lemma CallLength(xid: u32, rpcvers: u32, prog: u32, vers: u32, proc: u32, mode: u32, args: seq<byte>)
    ensures |Words(CallWords(xid, rpcvers, prog, vers, proc, mode)) + args| == 44 + |args|
  {
    hide Words;
    WordsLength(CallWords(xid, rpcvers, prog, vers, proc, mode));
  }

  // ---- the reply -------------------------------------------------------------

  /** The replies to a call of these words and arguments, byte for byte. */
  ghost predicate Replied(servers: Registry, env: Env, xid: u32, rpcvers: u32, prog: u32, vers: u32, proc: u32,
                          args: seq<byte>, limit: nat, does: Method, replies: seq<seq<byte>>)
    requires 2 <= limit
  {
    if rpcvers != 2 then replies == [Words([xid, 1, 1, 0, 2, 2])]
    else if prog !in servers then replies == [Words([xid, 1, 0, 0, 0, 1])]
    else if vers !in servers[prog] then exists low, high ::
      && low in servers[prog] && high in servers[prog] && (forall v | v in servers[prog] :: low <= v <= high)
      && replies == [Words([xid, 1, 0, 0, 0, 2, low, high])]
    else if proc !in servers[prog][vers].procs then replies == [Words([xid, 1, 0, 0, 0, 3])]
    else
      var p := servers[prog][vers].procs[proc];
      match ArgsIn(env, p.args, args, limit)
      case None => replies == [Words([xid, 1, 0, 0, 0, 4])]
      case Some(vs) =>
        var b := does(vs);
        if !b.throws then |replies| == 1 && Meant(replies[0], env, p.res, xid, Intended(b.ops))
        else
          && |replies| == 2 && replies[if b.late then 0 else 1] == Words([xid, 1, 0, 0, 0, 4])
          && Meant(replies[if b.late then 1 else 0], env, p.res, xid, Intended(b.ops))
  }

  lemma RepliedFrom(servers: Registry, env: Env, xid: u32, rpcvers: u32, prog: u32, vers: u32, proc: u32, mode: u32,
                    args: seq<byte>, limit: nat, does: Method, replies: seq<seq<byte>>)
    requires 4 <= limit
    requires var m := Words(CallWords(xid, rpcvers, prog, vers, proc, mode)) + args;
      Answered(replies, FateOf(servers, env, m, limit), env, does)
    ensures Replied(servers, env, xid, rpcvers, prog, vers, proc, args, limit, does, replies)
  {
    FateOfCall(servers, env, xid, rpcvers, prog, vers, proc, mode, args, limit);
    hide Words, Meant, Rejects, ArgsIn, FateOf, CallWords, Intended;
    if |replies| == 1 {
      assert replies == [replies[0]];
    }
  }

  /** dispatch() on the bytes of a call: the reply is decided by what its words and its arguments are. A call that
      names a registered procedure and has arguments of its types is answered by the method. */
  method DispatchCall(server: Server, env: Env, xid: u32, rpcvers: u32, prog: u32, vers: u32, proc: u32, mode: u32,
                      args: seq<byte>, limit: u32, does: Method)
    returns (replies: seq<seq<byte>>)
    requires server.Valid() && 4 <= limit && |args| % 4 == 0
    requires var p := ProcOf(server.servers, prog, vers, proc); p.Some? ==>
      var vs := ArgsIn(env, p.value.args, args, limit);
      vs.Some? ==> Legal(env, p.value.res, xid, does(vs.value).ops, 1, false)
    ensures Replied(server.servers, env, xid, rpcvers, prog, vers, proc, args, limit, does, replies)
  {
    FateOfCall(server.servers, env, xid, rpcvers, prog, vers, proc, mode, args, limit);
    CallLength(xid, rpcvers, prog, vers, proc, mode, args);
    hide Words, Legal, Answered, Replied, ArgsIn, FateOf, CallWords;
    var m := Words(CallWords(xid, rpcvers, prog, vers, proc, mode)) + args;
    var thrown;
    thrown, replies := server.Dispatch(env, m, limit, does);
    RepliedFrom(server.servers, env, xid, rpcvers, prog, vers, proc, mode, args, limit, does, replies);
  }

  // ---- from the client's arguments to its result -------------------------------

  /** What the callback of the client's call gets for a use of the reply handle. */
  ghost function UseGets(env: Env, ty: Ty, xid: u32, limit: nat, use: Use)
    : (o: (Option<u32>, CallStat, Option<Val>))
    requires use.Answer? ==> Typed(env, ty, use.v)
  {
    match use
    case Answer(_, _, v) =>
      if Within(env, true, ty, v) && Depth(v) <= limit then (Some(xid), AcceptStat(0), Some(v))
      else (Some(xid), GarbageRes, None)
    case Refuse(stat) => (Some(xid), AcceptStat(stat), None)
    case RefuseAuth(stat) => (Some(xid), AuthStat(stat), None)
  }

  lemma MeantGives(m: seq<byte>, env: Env, ty: Ty, xid: u32, use: Use, limit: nat)
    requires Meant(m, env, ty, xid, use) && 6 <= limit && (use.Refuse? ==> use.stat != 0 && use.stat != 2)
    ensures use.Answer? ==> Typed(env, ty, use.v)
    ensures CallbackGets(env, ty, m, limit) == UseGets(env, ty, xid, limit, use)
  {
    hide CallbackGets, Words, Typed, Within, Enc, Depth, Answers, Rejects, Padded, Endian.BigEndian, BigEndian64;
    match use {
      case Answer(time, path, v) => ResultUnderstood(env, ty, v, xid, time, path, limit);
      case Refuse(stat) => RefusalUnderstood(env, ty, xid, stat, 0, 0, limit);
      case RefuseAuth(stat) => RefusalUnderstood(env, ty, xid, stat, 0, 0, limit);
    }
  }

  lemma {:induction false} IntendedOk(env: Env, ty: Ty, xid: u32, ops: seq<HandleOp>, refs: nat)
    requires Legal(env, ty, xid, ops, refs, false)
    ensures UseOk(env, ty, xid, Intended(ops))
  {
    hide UseOk;
    if ops == [] || ops[0].Drop? {
      assert UseOk(env, ty, xid, Refuse(PROC_UNAVAIL)) by {
        UsesOk(env, ty, xid, PROC_UNAVAIL, 0, [], VBool(false));
      }
    }
    if ops != [] && !ops[0].Invoke? {
      IntendedOk(env, ty, xid, ops[1..], if ops[0].Copy? then refs + 1 else refs - 1);
    }
  }

  /** What a method may do with its handle: refuse for authentication, refuse with any status that carries no data,
      or answer with a result that can be marshaled into one message. */
  lemma UsesOk(env: Env, ty: Ty, xid: u32, stat: u32, time: u64, path: seq<byte>, v: Val)
    ensures UseOk(env, ty, xid, RefuseAuth(stat))
    ensures UseOk(env, ty, xid, Refuse(stat)) <==> stat != 0 && stat != 2
    ensures UseOk(env, ty, xid, Answer(time, path, v)) <==>
      && Typed(env, ty, v) && Within(env, false, ty, v) && Depth(v) < 0x1_0000_0000
      && |path| <= 0xffff_fffc && 36 + |path| + Pad(|path|) + |Enc(env, ty, v)| < 0x8000_0000
  {
    hide Typed, Within, Depth, Enc, Endian.BigEndian, BigEndian64, Words;
    if |path| <= XDR_MAX_LEN {
      SuccessHdrSize(env, xid, time, path);
      RoundUp(|path|);
    }
  }

  lemma UseStat(env: Env, ty: Ty, xid: u32, use: Use)
    requires UseOk(env, ty, xid, use)
    ensures use.Refuse? ==> use.stat != 0 && use.stat != 2
  {
  }

  lemma CallMarshaled(env: Env, xid: u32, prog: u32, vers: u32, proc: u32, mode: u32, tys: seq<Ty>, vs: seq<Val>)
    requires AllTyped(env, tys, vs)
    ensures var hdr := CallHdr(xid, 2, prog, vers, proc, mode);
      && AllTyped(env, [RPC_MSG] + tys, [hdr] + vs)
      && EncAll(env, [RPC_MSG] + tys, [hdr] + vs)
          == Words(CallWords(xid, 2, prog, vers, proc, mode)) + EncAll(env, tys, vs)
      && (AllWithin(env, false, [RPC_MSG] + tys, [hdr] + vs) <==> AllWithin(env, false, tys, vs))
      && (4 <= MaxDepth(vs) ==> MaxDepth([hdr] + vs) == MaxDepth(vs))
      && (MaxDepth(vs) < 4 ==> MaxDepth([hdr] + vs) <= 4)
  {
    hide Typed, AllTyped, Within, AllWithin, Enc, EncAll, Depth, MaxDepth, Words;
    var hdr := CallHdr(xid, 2, prog, vers, proc, mode);
    CallIs(env, xid, 2, prog, vers, proc, mode);
    WithinWeaken(env, RPC_MSG, hdr);
    assert ([RPC_MSG] + tys)[1..] == tys;
    AllCons(env, [RPC_MSG] + tys, hdr, vs);
  }

  /** A remote call, between hosts of either byte order: the client marshals its arguments behind the header, the
      server calls the method with just these arguments, and the client's callback gets what the method made of
      them; it gets GARBAGE_ARGS instead if the arguments break their declared bounds or are too deep. */
  method RemoteCall(clientBig: bool, server: Server, env: Env, xid: u32, prog: u32, vers: u32, proc: u32, mode: u32,
                    args: seq<Val>, limit: u32, clientLimit: u32, does: Method)
    returns (sent: Result<Message>, replies: seq<seq<byte>>)
    requires server.Valid() && 4 <= limit && 6 <= clientLimit
    requires prog in server.servers && vers in server.servers[prog] && proc in server.servers[prog][vers].procs
    requires AllTyped(env, server.servers[prog][vers].procs[proc].args, args)
    requires AllWithin(env, false, server.servers[prog][vers].procs[proc].args, args) ==>
      44 + |EncAll(env, server.servers[prog][vers].procs[proc].args, args)| < LAST_FRAGMENT
    requires Legal(env, server.servers[prog][vers].procs[proc].res, xid, does(args).ops, 1, false)
    requires !does(args).throws
    ensures var p := server.servers[prog][vers].procs[proc];
      sent.Ok? <==> AllWithin(env, false, p.args, args) && MaxDepth(args) <= 0xffff_ffff
    ensures sent.Ok? ==>
      var p := server.servers[prog][vers].procs[proc];
      && |replies| == 1
      && if AllWithin(env, true, p.args, args) && MaxDepth(args) <= limit - 2 then
           var use := Intended(does(args).ops);
           && (use.Answer? ==> Typed(env, p.res, use.v))
           && CallbackGets(env, p.res, replies[0], clientLimit) == UseGets(env, p.res, xid, clientLimit, use)
         else CallbackGets(env, p.res, replies[0], clientLimit) == (Some(xid), AcceptStat(4), None)
  {
    hide Words, Legal, Meant, UseGets, CallbackGets, ArgsIn, CallWords, Intended, CallHdr, UseOk;
    hide AllTyped, AllWithin, EncAll, MaxDepth, Typed;
    var p := server.servers[prog][vers].procs[proc];
    CallMarshaled(env, xid, prog, vers, proc, mode, p.args, args);
    CallLength(xid, 2, prog, vers, proc, mode, EncAll(env, p.args, args));
    sent := ToMsg(clientBig, env, [RPC_MSG] + p.args, [CallHdr(xid, 2, prog, vers, proc, mode)] + args, 0xffff_ffff);
    replies := [];
    if sent.Ok? {
      ArgsRound(env, p.args, args, limit);
      AllAligned(env, p.args, args);
      replies := DispatchCall(server, env, xid, 2, prog, vers, proc, mode, EncAll(env, p.args, args), limit, does);
      if AllWithin(env, true, p.args, args) && MaxDepth(args) <= limit - 2 {
        IntendedOk(env, p.res, xid, does(args).ops, 1);
        UseStat(env, p.res, xid, Intended(does(args).ops));
        MeantGives(replies[0], env, p.res, xid, Intended(does(args).ops), clientLimit);
      } else {
        RefusalUnderstood(env, p.res, xid, 4, 0, 0, clientLimit);
      }
    }
  }
}
