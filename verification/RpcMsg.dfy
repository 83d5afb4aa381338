/** The RPC message header (rpc_msg.x), as types of the XDR embedding, and what a client makes of a
    reply (rpc_msg.cc, arpc.h). */
module RpcMsg {
  import opened Endian
  import opened UnionGen
  import opened Wrappers
  import opened Xdr
  import opened XdrLaws

  const CALL: u32 := 0
  const REPLY: u32 := 1
  const MSG_ACCEPTED: u32 := 0
  const MSG_DENIED: u32 := 1
  const AUTH_NONE: u32 := 0
  const SUCCESS: u32 := 0
  const PROG_UNAVAIL: u32 := 1
  const PROG_MISMATCH: u32 := 2
  const PROC_UNAVAIL: u32 := 3
  const GARBAGE_ARGS: u32 := 4
  const RPC_MISMATCH: u32 := 0
  const AUTH_ERROR: u32 := 1

  const XDR_MAX_LEN := 0xffff_fffc

  // ---- the grammar -----------------------------------------------------------

  const UINT := TWord(Unsigned)
  const ENUM := TWord(Signed)
  const OPAQUE_AUTH := TStruct([ENUM, TBytes(400)])
  const CALL_BODY := TStruct([UINT, UINT, UINT, UINT, OPAQUE_AUTH, OPAQUE_AUTH, UINT])
  const SUCCESS_INFO := TStruct([THyper(Floating), TBytes(XDR_MAX_LEN), TOpaque(0)])
  const MISMATCH_INFO := TStruct([UINT, UINT])

  function Arm(tag: u32, ty: Ty): Spec<Ty> {
    Spec([Case(tag)], Some(ty))
  }

  const VOID_DEFAULT: Spec<Ty> := Spec([Default], None)
  const REPLY_DATA := TUnion(TagInt, [Arm(SUCCESS, SUCCESS_INFO), Arm(PROG_MISMATCH, MISMATCH_INFO), VOID_DEFAULT])
  const ACCEPTED_REPLY := TStruct([OPAQUE_AUTH, REPLY_DATA])
  const REJECTED_REPLY := TUnion(TagInt, [Arm(RPC_MISMATCH, MISMATCH_INFO), Arm(AUTH_ERROR, ENUM)])
  const REPLY_BODY := TUnion(TagInt, [Arm(MSG_ACCEPTED, ACCEPTED_REPLY), Arm(MSG_DENIED, REJECTED_REPLY)])
  const BODY := TUnion(TagInt, [Arm(CALL, CALL_BODY), Arm(REPLY, REPLY_BODY)])
  const RPC_MSG := TStruct([UINT, BODY])

  // ---- what a client makes of a reply ----------------------------------------

  datatype CallStat = AcceptStat(accept: u32) | AuthStat(auth: u32) | RpcversMismatch | GarbageRes

  /** The header of a call or a reply, laid open. */
  datatype Header =
    | Call(xid: u32, rpcvers: u32, prog: u32, vers: u32, proc: u32)
    | Accepted(xid: u32, accept: u32, data: seq<Val>)
    | Denied(xid: u32, reject: u32, why: seq<Val>)
    | Malformed

  function Word(v: Val): u32 {
    if v.VWord? then v.w else 0
  }

  /** Reads a header of type RPC_MSG. */
  function Open(v: Val): Header {
    if v.VSeq? && |v.vs| == 2 && v.vs[1].VUnion? && |v.vs[1].body| == 1 then
      var xid, body := Word(v.vs[0]), v.vs[1].body[0];
      if v.vs[1].tag == CALL && body.VSeq? && |body.vs| == 7 then
        Call(xid, Word(body.vs[0]), Word(body.vs[1]), Word(body.vs[2]), Word(body.vs[3]))
      else if v.vs[1].tag == REPLY && body.VUnion? && |body.body| == 1 then
        var r := body.body[0];
        if body.tag == MSG_ACCEPTED && r.VSeq? && |r.vs| == 2 && r.vs[1].VUnion? then
          Accepted(xid, r.vs[1].tag, r.vs[1].body)
        else if body.tag == MSG_DENIED && r.VUnion? then Denied(xid, r.tag, r.body)
        else Malformed
      else Malformed
    else Malformed
  }

  /** rpc_call_stat::rpc_call_stat(const rpc_msg &). */
  function StatOf(h: Header): CallStat {
    match h
    case Accepted(_, stat, _) => AcceptStat(stat)
    case Denied(_, stat, why) =>
      if stat == RPC_MISMATCH then RpcversMismatch
      else if stat == AUTH_ERROR && |why| == 1 then AuthStat(Word(why[0]))
      else GarbageRes
    case _ => GarbageRes
  }

  /** What the callback of a call whose result has type `ty` gets for a reply: a status, and the result
      if that is success. */
  function Understood(env: Env, ty: Ty, m: seq<byte>, limit: nat): (CallStat, Option<Val>) {
    if |m| % 4 != 0 then (GarbageRes, None)
    else match Dec(env, false, RPC_MSG, m, limit)
      case Failed(_) => (GarbageRes, None)
      case Done(hdr, rest) =>
        var stat := StatOf(Open(hdr));
        if stat != AcceptStat(SUCCESS) then (if rest == [] then stat else GarbageRes, None)
        else match Dec(env, false, ty, rest, limit)
          case Failed(_) => (GarbageRes, None)
          case Done(v, more) => if more == [] then (stat, Some(v)) else (GarbageRes, None)
  }

  /** The same for async_tier: the exception xdr_wrong_union, which nothing catches, or a status and result. */
  datatype TierOutcome = Escaped | Got(stat: CallStat, result: Option<Val>)

  /** async_tier's callback reads the success arm of every accepted reply before it looks at the status. */
  function TierUnderstood(env: Env, ty: Ty, m: seq<byte>, limit: nat): TierOutcome {
    if |m| % 4 != 0 then Got(GarbageRes, None)
    else match Dec(env, false, RPC_MSG, m, limit)
      case Failed(_) => Got(GarbageRes, None)
      case Done(hdr, _) =>
        if Open(hdr).Accepted? && Open(hdr).accept != SUCCESS then Escaped
        else var u := Understood(env, ty, m, limit); Got(u.0, u.1)
  }

  /** The xid of a message, if it has a header. */
  function XidOf(env: Env, m: seq<byte>, limit: nat): Option<u32> {
    match Dec(env, false, RPC_MSG, m, limit)
    case Failed(_) => None
    case Done(hdr, _) => if Open(hdr) == Malformed then None else Some(Open(hdr).xid)
  }
}
