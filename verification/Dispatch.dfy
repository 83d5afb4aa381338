/** Call dispatch (server.cc, arpc.h): from a message to the one reply that a call must get. */
module Dispatch {
  import opened Endian
  import opened RecordMarking
  import opened Reply
  import opened RpcMsg
  import opened UnionGen
  import opened Wrappers
  import opened Xdr
  import opened XdrGet
  import opened XdrLaws

  // ---- reply handles ---------------------------------------------------------

  /** The uses of a reply_cb: a result, or a refusal. */
  datatype Use = Answer(time: u64, path: seq<byte>, v: Val) | Refuse(stat: u32) | RefuseAuth(stat: u32)

  /** What can be done with the handles on one reply. */
  datatype HandleOp = Copy | Drop | Invoke(use: Use)

  /** A result can be marshaled; rpc_accepted_error_msg() demands a status without data. */
  ghost predicate UseOk(env: Env, ty: Ty, xid: u32, use: Use) {
    match use
    case Answer(time, path, v) =>
      && Typed(env, ty, v) && Within(env, false, ty, v) && Depth(v) <= 0xffff_ffff && |path| <= XDR_MAX_LEN
      && |SuccessBytes(xid, time, path)| + |Enc(env, ty, v)| < LAST_FRAGMENT
    case Refuse(stat) => stat != SUCCESS && stat != PROG_MISMATCH
    case RefuseAuth(_) => true
  }

  /** The message `m` is the one for `use`, and the client of call `xid` understands it so. */
  ghost predicate Meant(m: seq<byte>, env: Env, ty: Ty, xid: u32, use: Use) {
    match use
    case Answer(time, path, v) =>
      && Typed(env, ty, v) && |path| <= XDR_MAX_LEN && Answers(env, m, xid, time, path, ty, v)
      && m == SuccessBytes(xid, time, path) + Enc(env, ty, v)
    case Refuse(stat) => m == Words([xid, 1, 0, 0, 0, stat]) && Rejects(m, Accepted(xid, stat, []))
    case RefuseAuth(stat) => m == Words([xid, 1, 1, 1, stat]) && Rejects(m, Denied(xid, AUTH_ERROR, [VWord(stat)]))
  }

  /** Handles exist as long as they are used, and at most one use is made of them. */
  ghost predicate Legal(env: Env, ty: Ty, xid: u32, ops: seq<HandleOp>, refs: nat, used: bool) {
    ops == [] || (refs > 0 && (
      match ops[0]
      case Copy => Legal(env, ty, xid, ops[1..], refs + 1, used)
      case Drop => Legal(env, ty, xid, ops[1..], refs - 1, used)
      case Invoke(use) => !used && UseOk(env, ty, xid, use) && Legal(env, ty, xid, ops[1..], refs, true)))
  }

  /** The use that is made of them, or the refusal that stands for none. */
  function Intended(ops: seq<HandleOp>): Use {
    if ops == [] then Refuse(PROC_UNAVAIL)
    else if ops[0].Invoke? then ops[0].use
    else Intended(ops[1..])
  }

  /** reply_cb_impl behind its shared_ptr: `refs` handles share it, `armed` says that cb_ is set. */
  class ReplyCb {
    const bigEndian: bool
    const env: Env
    const ty: Ty
    const xid: u32
    var armed: bool
    var refs: nat
    var replies: seq<seq<byte>>

    ghost predicate Valid()
      reads this
    {
      (refs == 0 ==> !armed) && |replies| == if armed then 0 else 1
    }

    constructor (bigEndian: bool, env: Env, ty: Ty, xid: u32)
      ensures Valid() && armed && refs == 1
      ensures this.env == env && this.ty == ty && this.xid == xid
    {
      this.bigEndian, this.env, this.ty, this.xid := bigEndian, env, ty, xid;
      armed, refs, replies := true, 1, [];
    }

    /** send_reply(), reject(accept_stat) and reject(auth_stat); send_reply_msg() asserts that it is armed. */
    method Send(use: Use)
      requires Valid() && armed && UseOk(env, ty, xid, use)
      modifies this`armed, this`replies
      ensures Valid() && !armed && Meant(replies[0], env, ty, xid, use)
    {
      hide Answers, Rejects, Typed, Within, Enc, Depth, SuccessBytes;
      var m: seq<byte>;
      match use {
        case Answer(time, path, v) =>
          var r := SuccessMsg(bigEndian, env, xid, time, path, ty, v);
          m := r.value;
        case Refuse(stat) => m := AcceptedErrorMsg(bigEndian, xid, stat);
        case RefuseAuth(stat) => m := AuthErrorMsg(bigEndian, xid, stat);
      }
      replies := replies + [m];
      armed := false;
    }

    method AddRef()
      requires Valid() && refs > 0
      modifies this`refs
      ensures Valid() && refs == old(refs) + 1
    {
      refs := refs + 1;
    }

    /** The last handle to go replies if nobody has. */
    method Release()
      requires Valid() && refs > 0
      modifies this`armed, this`refs, this`replies
      ensures Valid() && refs == old(refs) - 1
      ensures if refs == 0 && old(armed) then !armed && Meant(replies[0], env, ty, xid, Refuse(PROC_UNAVAIL))
        else armed == old(armed) && replies == old(replies)
    {
      if refs == 1 && armed {
        Send(Refuse(PROC_UNAVAIL));
      }
      refs := refs - 1;
    }

    /** One operation on a handle. */
    method Do(op: HandleOp, ghost rest: seq<HandleOp>)
      requires Valid() && Legal(env, ty, xid, [op] + rest, refs, !armed)
      modifies this`armed, this`refs, this`replies
      ensures Valid()
      ensures refs > 0 ==> Legal(env, ty, xid, rest, refs, !armed)
      ensures refs == 0 ==> rest == []
      ensures !old(armed) ==> replies == old(replies)
      ensures old(armed) && armed ==> !op.Invoke?
      ensures old(armed) && !armed ==> Meant(replies[0], env, ty, xid, Intended([op] + rest))
    {
      hide Meant, UseOk;
      assert ([op] + rest)[1..] == rest;
      match op {
        case Copy => AddRef();
        case Drop =>
          Release();
          if refs == 0 {
            assert Intended([op] + rest) == Refuse(PROC_UNAVAIL);
          }
        case Invoke(use) => Send(use);
      }
    }
  }

  /** The whole life of the handles on one reply, however the method copies, drops and uses them: one message
      goes out, and it is the one intended. */
  method Serve(bigEndian: bool, env: Env, ty: Ty, xid: u32, ops: seq<HandleOp>) returns (m: seq<byte>)
    requires Legal(env, ty, xid, ops, 1, false)
    ensures Meant(m, env, ty, xid, Intended(ops))
  {
    hide Meant, UseOk, Legal;
    var h := new ReplyCb(bigEndian, env, ty, xid);
    assert ops[0..] == ops;
    for i := 0 to |ops|
      invariant fresh(h) && h.Valid() && h.env == env && h.ty == ty && h.xid == xid
      invariant h.refs > 0 ==> Legal(env, ty, xid, ops[i..], h.refs, !h.armed)
      invariant h.refs == 0 ==> i == |ops|
      invariant h.armed ==> Intended(ops) == Intended(ops[i..])
      invariant !h.armed ==> Meant(h.replies[0], env, ty, xid, Intended(ops))
    {
      assert ops[i..] == [ops[i]] + ops[i + 1..];
      h.Do(ops[i], ops[i + 1..]);
    }
    assert ops[|ops|..] == [];
    while h.refs > 0
      invariant fresh(h) && h.Valid() && h.env == env && h.ty == ty && h.xid == xid
      invariant h.armed ==> Intended(ops) == Refuse(PROC_UNAVAIL)
      invariant !h.armed ==> Meant(h.replies[0], env, ty, xid, Intended(ops))
      decreases h.refs
    {
      h.Release();
    }
    return h.replies[0];
  }

  // ---- the server ------------------------------------------------------------

  datatype Proc = Proc(args: seq<Ty>, res: Ty)

  datatype Service = Service(prog: u32, vers: u32, procs: map<u32, Proc>)

  /** What the method does when called, during the call and ever after: its operations on the reply handles,
      whether it throws an xdr_runtime_error, and whether a handle outlives that. */
  datatype Behaviour = Behaviour(ops: seq<HandleOp>, throws: bool, late: bool)

  /** A method: what it does when called with these arguments. */
  type Method = seq<Val> -> Behaviour

  type Registry = map<u32, map<u32, Service>>

  /** The arguments are unmarshaled as a tuple of transparent pointers. */
  function Wrapped(args: seq<Ty>): seq<Ty> {
    if args == [] then [] else [TStruct([args[0]])] + Wrapped(args[1..])
  }

  /** The arguments that such a tuple holds. */
  function Unwrapped(v: Val): seq<Val> {
    UnwrappedAll(Kids(v))
  }

  function UnwrappedAll(ws: seq<Val>): seq<Val> {
    if ws == [] then [] else (if |Kids(ws[0])| == 1 then Kids(ws[0]) else []) + UnwrappedAll(ws[1..])
  }

  /** What becomes of a message. */
  datatype Fate =
    | Ignored
    | WrongRpcvers(xid: u32)
    | NoProgram(xid: u32)
    | NoVersion(xid: u32, versions: set<u32>)
    | NoProcedure(xid: u32)
    | BadArgs(xid: u32)
    | Served(xid: u32, proc: Proc, args: seq<Val>)

  function FateOf(servers: Registry, env: Env, m: seq<byte>, limit: nat): Fate {
    match Dec(env, false, RPC_MSG, m, limit)
    case Failed(_) => Ignored
    case Done(hdr, rest) =>
      var h := Open(hdr);
      if !h.Call? then Ignored
      else if h.rpcvers != 2 then WrongRpcvers(h.xid)
      else if h.prog !in servers then NoProgram(h.xid)
      else if h.vers !in servers[h.prog] then NoVersion(h.xid, servers[h.prog].Keys)
      else if h.proc !in servers[h.prog][h.vers].procs then NoProcedure(h.xid)
      else CallFate(h.xid, servers[h.prog][h.vers].procs[h.proc], env, rest, limit)
  }

  /** What becomes of a call of `proc` whose arguments are marshaled as `s`. */
  function CallFate(xid: u32, proc: Proc, env: Env, s: seq<byte>, limit: nat): (f: Fate)
    ensures (f.Served? || f.BadArgs?) && f.xid == xid
  {
    match Dec(env, false, TStruct(Wrapped(proc.args)), s, limit)
    case Failed(_) => BadArgs(xid)
    case Done(v, more) => if more == [] then Served(xid, proc, Unwrapped(v)) else BadArgs(xid)
  }

  /** The replies that a message should get, word for word and as the client understands them. */
  ghost predicate Answered(replies: seq<seq<byte>>, fate: Fate, env: Env, does: Method) {
    match fate
    case Ignored => replies == []
    case WrongRpcvers(xid) => |replies| == 1 && replies[0] == Words([xid, 1, 1, 0, 2, 2]) &&
      Rejects(replies[0], Denied(xid, RPC_MISMATCH, [VSeq([VWord(2), VWord(2)])]))
    case NoProgram(xid) => |replies| == 1 && Refusal(replies[0], xid, 1)
    case NoVersion(xid, versions) => |replies| == 1 && NamesVersions(replies[0], xid, versions)
    case NoProcedure(xid) => |replies| == 1 && Refusal(replies[0], xid, 3)
    case BadArgs(xid) => |replies| == 1 && Refusal(replies[0], xid, 4)
    case Served(xid, proc, args) =>
      var b := does(args);
      if !b.throws then |replies| == 1 && Meant(replies[0], env, proc.res, xid, Intended(b.ops))
      else
        // the handle's reply, and one more for the exception
        && |replies| == 2
        && Meant(replies[if b.late then 1 else 0], env, proc.res, xid, Intended(b.ops))
        && Refusal(replies[if b.late then 0 else 1], xid, 4)
  }

  ghost predicate Refusal(m: seq<byte>, xid: u32, stat: u32) {
    m == Words([xid, 1, 0, 0, 0, stat]) && Rejects(m, Accepted(xid, stat, []))
  }

  /** `m` names the least and the greatest of `versions`. */
  ghost predicate NamesVersions(m: seq<byte>, xid: u32, versions: set<u32>) {
    exists low, high :: Extremes(versions, low, high) && m == Words([xid, 1, 0, 0, 0, 2, low, high]) &&
      Rejects(m, Accepted(xid, PROG_MISMATCH, [VSeq([VWord(low), VWord(high)])]))
  }

  ghost predicate Extremes(s: set<u32>, low: u32, high: u32) {
    low in s && high in s && forall x | x in s :: low <= x <= high
  }

  /** rbegin() and begin() of an ordered map. */
  lemma {:induction false} ExtremesExist(s: set<u32>) returns (low: u32, high: u32)
    requires s != {}
    ensures Extremes(s, low, high)
    decreases s
  {
    var x :| x in s;
    if s == {x} {
      return x, x;
    }
    low, high := ExtremesExist(s - {x});
    assert forall y | y in s :: y == x || y in s - {x};
    low, high := if x < low then x else low, if x > high then x else high;
  }

  class Server {
    const bigEndian: bool
    var servers: Registry

    /** Services are found under their own program and version. */
    ghost predicate Valid()
      reads this
    {
      forall p | p in servers ::
        servers[p] != map[] && forall v | v in servers[p] :: servers[p][v].prog == p && servers[p][v].vers == v
    }

    constructor (bigEndian: bool)
      ensures Valid() && servers == map[]
    {
      this.bigEndian, servers := bigEndian, map[];
    }

    /** register_service_base(). */
    method Register(s: Service)
      requires Valid()
      modifies this`servers
      ensures Valid() && s.prog in servers && s.vers in servers[s.prog] && servers[s.prog][s.vers] == s
      ensures forall p | p != s.prog ::
        (p in servers <==> p in old(servers)) && (p in servers ==> servers[p] == old(servers)[p])
      ensures forall v | v != s.vers && s.prog in old(servers) && v in old(servers)[s.prog] ::
        v in servers[s.prog] && servers[s.prog][v] == old(servers)[s.prog][v]
    {
      var versions := if s.prog in servers then servers[s.prog] else map[];
      servers := servers[s.prog := versions[s.vers := s]];
      assert s.vers in servers[s.prog];
    }

    /** Lines 104-106: the least and the greatest version registered. */
    method RefuseVersion(versions: map<u32, Service>, xid: u32) returns (reply: seq<byte>)
      requires versions != map[]
      ensures NamesVersions(reply, xid, versions.Keys)
    {
      hide Rejects, Words;
      ghost var l, u := ExtremesExist(versions.Keys);
      assert l in versions;
      var low :| low in versions && forall v | v in versions :: low <= v;
      var high :| high in versions && forall v | v in versions :: v <= high;
      assert Extremes(versions.Keys, low, high);
      reply := ProgMismatchMsg(bigEndian, xid, low, high);
    }

    /** rpc_server_base::dispatch(): a message whose length is not a multiple of 4 makes it throw, as the
        archive is made outside of its handlers. A well-formed call gets exactly one reply, if and only if
        its method is not one that throws. */
    method Dispatch(env: Env, m: seq<byte>, limit: u32, does: Method) returns (thrown: bool, replies: seq<seq<byte>>)
      requires Valid()
      requires var fate := FateOf(servers, env, m, limit);
        fate.Served? ==> Legal(env, fate.proc.res, fate.xid, does(fate.args).ops, 1, false)
      ensures thrown <==> |m| % 4 != 0
      ensures thrown ==> replies == []
      ensures !thrown ==> Answered(replies, FateOf(servers, env, m, limit), env, does)
    {
      hide Dec, Rejects, Meant, Open, Legal, Words, CallFate;
      if |m| % 4 != 0 {
        return true, [];
      }
      thrown := false;
      var g := new Get(bigEndian, m, limit);
      var hdr := g.GetValue(env, RPC_MSG, None);
      if hdr.Throws? {
        return false, [];
      }
      var h := Open(hdr.value);
      if !h.Call? {
        return false, [];
      }
      var reply: seq<byte>;
      if h.rpcvers != 2 {
        reply := RpcMismatchMsg(bigEndian, h.xid);
        return false, [reply];
      }
      if h.prog !in servers {
        reply := AcceptedErrorMsg(bigEndian, h.xid, PROG_UNAVAIL);
        return false, [reply];
      }
      if h.vers !in servers[h.prog] {
        reply := RefuseVersion(servers[h.prog], h.xid);
        return false, [reply];
      }
      replies := Process(servers[h.prog][h.vers], env, h, g, does);
    }

    /** arpc_service::process() and dispatch<P>(), with the handler that dispatch() has around them. Reached
        from there, check_call() never fails. */
    method Process(service: Service, env: Env, h: Header, g: Get, does: Method)
      returns (replies: seq<seq<byte>>)
      requires h.Call? && h.rpcvers == 2 && h.prog == service.prog && h.vers == service.vers && g.Valid()
      requires var fate := ProcessFate(service, env, h, g);
        fate.Served? ==> Legal(env, fate.proc.res, h.xid, does(fate.args).ops, 1, false)
      modifies g
      ensures Answered(replies, old(ProcessFate(service, env, h, g)), env, does)
    {
      hide Dec, Rejects, Meant, Legal, Words, Wrapped, Unwrapped;
      var m: seq<byte>;
      if h.proc !in service.procs {
        m := AcceptedErrorMsg(bigEndian, h.xid, PROC_UNAVAIL);
        return [m];
      }
      var proc := service.procs[h.proc];
      var arg := g.GetValue(env, TStruct(Wrapped(proc.args)), None);
      if arg.Throws? || g.p != g.e {
        m := AcceptedErrorMsg(bigEndian, h.xid, GARBAGE_ARGS);
        return [m];
      }
      var b := does(Unwrapped(arg.value));
      m := Serve(bigEndian, env, proc.res, h.xid, b.ops);
      if !b.throws {
        return [m];
      }
      var garbage := AcceptedErrorMsg(bigEndian, h.xid, GARBAGE_ARGS);
      return if b.late then [garbage, m] else [m, garbage];
    }
  }

  ghost function ProcessFate(service: Service, env: Env, h: Header, g: Get): (f: Fate)
    requires h.Call? && g.Valid()
    reads g
    ensures f != Ignored && f.xid == h.xid
  {
    if h.proc !in service.procs then NoProcedure(h.xid)
    else CallFate(h.xid, service.procs[h.proc], env, g.Rest(), g.stackLimit)
  }

  lemma TwoArms(a: Ty, b: Ty, tag: u32)
    requires Select([Arm(0, a), Arm(1, b)], SignedOf(tag)).Some?
    ensures tag <= 1 && ChildTys(TUnion(TagInt, [Arm(0, a), Arm(1, b)]), tag) == [if tag == 0 then a else b]
  {
    var arms := [Arm(0, a), Arm(1, b)];
    assert Default !in arms[0].labels && Default !in arms[1].labels;
    assert Find(arms, Default) == None;
    UnionChild(arms, tag, tag);
  }

  /** A value of a union with these two arms holds a value of the one or the other. */
  lemma TwoArmed(env: Env, a: Ty, b: Ty, v: Val)
    requires var u := TUnion(TagInt, [Arm(0, a), Arm(1, b)]); Typed(env, u, v) && Within(env, true, u, v)
    ensures v.VUnion? && v.tag <= 1 && |v.body| == 1
    ensures var ty := if v.tag == 0 then a else b; Typed(env, ty, v.body[0]) && Within(env, true, ty, v.body[0])
  {
    var arms := [Arm(0, a), Arm(1, b)];
    Opened(env, TUnion(TagInt, arms), v);
    hide Typed, AllTyped, Within, AllWithin, ChildTys, Select, Enc, Depth;
    TwoArms(a, b, v.tag);
    AllLength(env, ChildTys(TUnion(TagInt, arms), v.tag), v.body);
    AllUncons(env, ChildTys(TUnion(TagInt, arms), v.tag), v.body);
  }

  lemma UnionShape(env: Env, kind: TagKind, arms: seq<Spec<Ty>>, v: Val)
    requires Typed(env, TUnion(kind, arms), v)
    ensures v.VUnion?
  {
  }

  lemma StructOf(env: Env, fields: seq<Ty>, v: Val)
    requires Typed(env, TStruct(fields), v) && Within(env, true, TStruct(fields), v)
    ensures v.VSeq? && |v.vs| == |fields|
    ensures |fields| == 2 ==> Typed(env, fields[1], v.vs[1]) && Within(env, true, fields[1], v.vs[1])
  {
    Opened(env, TStruct(fields), v);
    hide Typed, AllTyped, Within, AllWithin, Enc, Depth;
    AllLength(env, fields, v.vs);
    if |fields| == 2 {
      AllUncons(env, fields, v.vs);
      AllUncons(env, fields[1..], v.vs[1..]);
    }
  }

  lemma ReplyShape(env: Env, r: Val)
    requires Typed(env, REPLY_BODY, r) && Within(env, true, REPLY_BODY, r)
    ensures r.VUnion? && r.tag <= 1 && |r.body| == 1
    ensures if r.tag == MSG_ACCEPTED then r.body[0].VSeq? && |r.body[0].vs| == 2 && r.body[0].vs[1].VUnion?
      else r.body[0].VUnion?
  {
    hide Typed, Within;
    TwoArmed(env, ACCEPTED_REPLY, REJECTED_REPLY, r);
    if r.tag == MSG_ACCEPTED {
      StructOf(env, [OPAQUE_AUTH, REPLY_DATA], r.body[0]);
      UnionShape(env, TagInt, REPLY_DATA.arms, r.body[0].vs[1]);
    } else {
      UnionShape(env, TagInt, REJECTED_REPLY.arms, r.body[0]);
    }
  }

  lemma WordField(env: Env, fields: seq<Ty>, v: Val, i: nat)
    requires Typed(env, TStruct(fields), v) && i < |fields| && fields[i] == UINT
    ensures v.VSeq? && |v.vs| == |fields| && v.vs[i].VWord?
  {
    assert AllTyped(env, fields, v.vs);
    AllTypedAt(env, fields, v.vs, i);
  }

  /** A header read from a message is that of a call or of a reply, as its discriminants say, and the fields of a
      call are the words at their places. */
  lemma OpenTyped(env: Env, v: Val)
    requires Typed(env, RPC_MSG, v) && Within(env, true, RPC_MSG, v)
    ensures Open(v) != Malformed && v.VSeq? && |v.vs| == 2 && v.vs[1].VUnion? && v.vs[0] == VWord(Open(v).xid)
    ensures Open(v).Call? <==> v.vs[1].tag == CALL
    ensures Open(v).Call? ==>
      && |v.vs[1].body| == 1 && v.vs[1].body[0].VSeq? && |v.vs[1].body[0].vs| == 7
      && v.vs[1].body[0].vs[..4]
        == [VWord(Open(v).rpcvers), VWord(Open(v).prog), VWord(Open(v).vers), VWord(Open(v).proc)]
  {
    hide Typed, Within;
    StructOf(env, [UINT, BODY], v);
    WordField(env, [UINT, BODY], v, 0);
    TwoArmed(env, CALL_BODY, REPLY_BODY, v.vs[1]);
    if v.vs[1].tag == CALL {
      StructOf(env, CALL_BODY.fields, v.vs[1].body[0]);
      forall i | 0 <= i < 4 ensures v.vs[1].body[0].vs[i].VWord? {
        WordField(env, CALL_BODY.fields, v.vs[1].body[0], i);
      }
    } else {
      ReplyShape(env, v.vs[1].body[0]);
    }
  }
}
