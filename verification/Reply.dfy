/** Replies (server.cc, server.h, arpc.h): the messages a server formats, word by word, are what the
    grammar of rpc_msg.x means by them. */
module Reply {
  import opened Endian
  import opened RecordMarking
  import opened RpcMsg
  import opened UnionGen
  import opened Wrappers
  import opened Xdr
  import opened XdrKnown
  import opened XdrLaws
  import opened XdrPut
  import opened XdrSize

  // ---- words -----------------------------------------------------------------

  lemma WordsCons(w: u32, ws: seq<u32>, s: seq<byte>)
    ensures Words([w] + ws) + s == BigEndian(w) + (Words(ws) + s)
  {
    hide Endian.BigEndian;
    assert ([w] + ws)[1..] == ws;
  }

  lemma {:induction false} WordsAppend(ws: seq<u32>, w: u32)
    ensures Words(ws + [w]) == Words(ws) + BigEndian(w)
  {
    hide Endian.BigEndian;
    if ws == [] {
      WordsCons(w, [], []);
      assert [] + [w] == [w] + [] && Words([]) == [];
    } else {
      WordsAppend(ws[1..], w);
      assert (ws + [w])[1..] == ws[1..] + [w];
    }
  }

  lemma {:induction false} WordsLength(ws: seq<u32>)
    ensures |Words(ws)| == 4 * |ws|
  {
    hide Endian.BigEndian;
    if ws != [] {
      WordsLength(ws[1..]);
    }
  }

  lemma WordsNone(s: seq<byte>)
    ensures Words([]) + s == s
  {
  }

  lemma WordsOne(w: u32)
    ensures Words([w]) == BigEndian(w)
  {
    hide Endian.BigEndian;
    assert [w][1..] == [];
  }

  lemma WholeWords(env: Env, ty: Ty, v: Val, s: seq<byte>, d: nat)
    requires Is(env, ty, v, s, d)
    ensures |s| % 4 == 0
  {
    Aligned(env, ty, v);
  }

  /** message_t::alloc(size), and the words put into it one after the other, which fill it. */
  method Format(bigEndian: bool, size: nat, ws: seq<u32>) returns (data: seq<byte>)
    requires size == 4 * |ws| < LAST_FRAGMENT
    ensures data == Words(ws)
  {
    hide Endian.BigEndian, Attempt;
    WordsLength(ws);
    var m := new Message(bigEndian, size);
    var raw := m.raw;
    var p := new Put(bigEndian, raw, 4, 4 + size, 0xffff_ffff);
    ghost var before := raw[..];
    AttemptNothing(before, 4, p.e);
    for i := 0 to |ws|
      invariant p.Valid() && p.buf == raw && p.e == 4 + size
      invariant Attempt(None, true, true, Words(ws[..i]), before, 4, raw[..], p.p, p.e)
    {
      ghost var mid, at := raw[..], p.p;
      var r := p.PutWord(ws[i]);
      AttemptMore(before, 4, Words(ws[..i]), mid, at, p.e, r, true, true, BigEndian(ws[i]), raw[..], p.p);
      WordsAppend(ws[..i], ws[i]);
      assert ws[..i] + [ws[i]] == ws[..i + 1];
      WordsLength(ws[..i + 1]);
      AttemptMeans(r, true, true, Words(ws[..i]) + BigEndian(ws[i]), before, 4, raw[..], p.p, p.e);
    }
    assert ws[..|ws|] == ws;
    AttemptMeans(None, true, true, Words(ws), before, 4, raw[..], p.p, p.e);
    assert p.p == p.e && raw[4..] == Words(ws);
    return raw[4..];
  }

  // ---- the meaning of a reply ------------------------------------------------

  const NO_AUTH := VSeq([VWord(AUTH_NONE), VBytes([])])

  function AcceptedMsg(xid: u32, stat: u32, data: seq<Val>): Val {
    VSeq([VWord(xid), VUnion(REPLY, [VUnion(MSG_ACCEPTED, [VSeq([NO_AUTH, VUnion(stat, data)])])])])
  }

  function DeniedMsg(xid: u32, stat: u32, why: seq<Val>): Val {
    VSeq([VWord(xid), VUnion(REPLY, [VUnion(MSG_DENIED, [VUnion(stat, why)])])])
  }

  lemma NoAuthIs(env: Env, d: nat)
    ensures Is(env, OPAQUE_AUTH, NO_AUTH, Words([AUTH_NONE, 0]), d + 1)
  {
    hide Is, AreAll, Endian.BigEndian;
    IsWord(env, Signed, AUTH_NONE, d);
    IsBytes(env, 400, [], d);
    assert Padded([]) == [];
    AreTwo(env, ENUM, VWord(AUTH_NONE), BigEndian(AUTH_NONE), TBytes(400), VBytes([]), BigEndian(0) + [], d);
    WordsCons(AUTH_NONE, [0], []);
    WordsCons(0, [], []);
    assert [AUTH_NONE] + [0] == [AUTH_NONE, 0] && [0] + [] == [0 as u32];
    assert BigEndian(AUTH_NONE) + (BigEndian(0) + []) == Words([AUTH_NONE, 0]);
    IsStruct(env, [ENUM, TBytes(400)], [VWord(AUTH_NONE), VBytes([])], Words([AUTH_NONE, 0]), d);
  }

  lemma UnionChild(arms: seq<Spec<Ty>>, i: nat, tag: u32)
    requires i < |arms| && tag < 0x8000_0000 && arms[i].body.Some? && arms[i].labels == [Case(tag)]
    requires forall j | 0 <= j < i :: Case(tag) !in arms[j].labels
    ensures Select(arms, SignedOf(tag)) == Some(i) && ChildTys(TUnion(TagInt, arms), tag) == [arms[i].body.value]
  {
    var f := Find(arms, Case(tag));
    assert Case(tag) in arms[i].labels;
    assert f.Some?;
  }

  /** A reply's body, wrapped into the header. */
  lemma ReplyIs(env: Env, xid: u32, tag: u32, i: nat, body: Val, s: seq<byte>, d: nat)
    requires i < 2 && tag == i && Is(env, if i == 0 then ACCEPTED_REPLY else REJECTED_REPLY, body, s, d)
    ensures Is(env, RPC_MSG, VSeq([VWord(xid), VUnion(REPLY, [VUnion(tag, [body])])]),
               Words([xid, REPLY, tag]) + s, d + 3)
  {
    hide Is, AreAll, Endian.BigEndian, ChildTys, Select;
    var ty := if i == 0 then ACCEPTED_REPLY else REJECTED_REPLY;
    AreOne(env, ty, body, s, d);
    var inner := [Arm(MSG_ACCEPTED, ACCEPTED_REPLY), Arm(MSG_DENIED, REJECTED_REPLY)];
    UnionChild(inner, i, tag);
    IsUnion(env, inner, tag, [ty], [body], s, d);
    AreOne(env, REPLY_BODY, VUnion(tag, [body]), BigEndian(tag) + s, d + 1);
    var outer := [Arm(CALL, CALL_BODY), Arm(REPLY, REPLY_BODY)];
    UnionChild(outer, 1, REPLY);
    IsUnion(env, outer, REPLY, [REPLY_BODY], [VUnion(tag, [body])], BigEndian(tag) + s, d + 1);
    IsWord(env, Unsigned, xid, d + 2);
    var rest := BigEndian(REPLY) + (BigEndian(tag) + s);
    AreTwo(env, UINT, VWord(xid), BigEndian(xid), BODY, VUnion(REPLY, [VUnion(tag, [body])]), rest, d + 2);
    IsStruct(env, [UINT, BODY], [VWord(xid), VUnion(REPLY, [VUnion(tag, [body])])], BigEndian(xid) + rest, d + 2);
    ThreeWords(xid, REPLY, tag, s);
  }

  lemma ThreeWords(a: u32, b: u32, c: u32, s: seq<byte>)
    ensures Words([a, b, c]) + s == BigEndian(a) + (BigEndian(b) + (BigEndian(c) + s))
  {
    hide Endian.BigEndian;
    WordsCons(a, [b, c], s);
    WordsCons(b, [c], s);
    WordsCons(c, [], s);
    assert [a] + [b, c] == [a, b, c] && [b] + [c] == [b, c] && [c] + [] == [c] && Words([]) + s == s;
  }

  lemma AcceptedIs(env: Env, xid: u32, stat: u32, tys: seq<Ty>, data: seq<Val>, s: seq<byte>)
    requires Select(REPLY_DATA.arms, SignedOf(stat)).Some? && tys == ChildTys(REPLY_DATA, stat)
    requires AreAll(env, tys, data, s, 1)
    ensures Is(env, RPC_MSG, AcceptedMsg(xid, stat, data), Words([xid, REPLY, MSG_ACCEPTED, AUTH_NONE, 0, stat]) + s, 6)
  {
    hide Is, AreAll, Endian.BigEndian, ChildTys, Select;
    IsUnion(env, REPLY_DATA.arms, stat, tys, data, s, 1);
    NoAuthIs(env, 1);
    var t := Words([AUTH_NONE, 0]) + (BigEndian(stat) + s);
    AreTwo(env, OPAQUE_AUTH, NO_AUTH, Words([AUTH_NONE, 0]), REPLY_DATA, VUnion(stat, data), BigEndian(stat) + s, 2);
    IsStruct(env, [OPAQUE_AUTH, REPLY_DATA], [NO_AUTH, VUnion(stat, data)], t, 2);
    ReplyIs(env, xid, MSG_ACCEPTED, 0, VSeq([NO_AUTH, VUnion(stat, data)]), t, 3);
    WordsSplit([xid, REPLY, MSG_ACCEPTED], [AUTH_NONE, 0, stat]);
    WordsSplit([AUTH_NONE, 0], [stat]);
    WordsCons(stat, [], []);
    assert [stat] + [] == [stat] && Words([]) == [];
    assert [AUTH_NONE, 0] + [stat] == [AUTH_NONE, 0, stat];
    assert [xid, REPLY, MSG_ACCEPTED] + [AUTH_NONE, 0, stat] == [xid, REPLY, MSG_ACCEPTED, AUTH_NONE, 0, stat];
    assert Words([xid, REPLY, MSG_ACCEPTED]) + t == Words([xid, REPLY, MSG_ACCEPTED, AUTH_NONE, 0, stat]) + s;
  }

  lemma {:induction false} WordsSplit(a: seq<u32>, b: seq<u32>)
    ensures Words(a + b) == Words(a) + Words(b)
  {
    hide Endian.BigEndian;
    if a == [] {
      assert a + b == b;
    } else {
      assert (a + b)[1..] == a[1..] + b;
      WordsSplit(a[1..], b);
    }
  }

  lemma DeniedIs(env: Env, xid: u32, stat: u32, tys: seq<Ty>, why: seq<Val>, s: seq<byte>)
    requires Select(REJECTED_REPLY.arms, SignedOf(stat)).Some? && tys == ChildTys(REJECTED_REPLY, stat)
    requires AreAll(env, tys, why, s, 2)
    ensures Is(env, RPC_MSG, DeniedMsg(xid, stat, why), Words([xid, REPLY, MSG_DENIED, stat]) + s, 6)
  {
    hide Is, AreAll, Endian.BigEndian, ChildTys, Select;
    IsUnion(env, REJECTED_REPLY.arms, stat, tys, why, s, 2);
    ReplyIs(env, xid, MSG_DENIED, 1, VUnion(stat, why), BigEndian(stat) + s, 3);
    WordsSplit([xid, REPLY, MSG_DENIED], [stat]);
    WordsCons(stat, [], []);
    assert [stat] + [] == [stat] && Words([]) == [];
    assert [xid, REPLY, MSG_DENIED] + [stat] == [xid, REPLY, MSG_DENIED, stat];
    assert Words([xid, REPLY, MSG_DENIED]) + (BigEndian(stat) + s) == Words([xid, REPLY, MSG_DENIED, stat]) + s;
  }

  lemma TwoWordsIs(env: Env, a: u32, b: u32, d: nat)
    ensures Is(env, MISMATCH_INFO, VSeq([VWord(a), VWord(b)]), Words([a, b]), d + 1)
  {
    hide Is, AreAll, Endian.BigEndian;
    IsWord(env, Unsigned, a, d);
    IsWord(env, Unsigned, b, d);
    AreTwo(env, UINT, VWord(a), BigEndian(a), UINT, VWord(b), BigEndian(b), d);
    IsStruct(env, [UINT, UINT], [VWord(a), VWord(b)], BigEndian(a) + BigEndian(b), d);
    WordsCons(a, [b], []);
    WordsCons(b, [], []);
    assert [a] + [b] == [a, b] && [b] + [] == [b] && Words([]) == [];
    assert BigEndian(a) + BigEndian(b) == Words([a, b]);
  }

  /** `m` is a whole message that every client, whatever it expects as the result of its call, reads as
      the header `h`, and takes for a failure of that kind. */
  ghost predicate Rejects(m: seq<byte>, h: Header) {
    h != Malformed && forall env: Env, ty: Ty, limit: nat | 6 <= limit :: ReadAs(env, ty, m, limit, h, StatOf(h), None)
  }

  predicate ReadAs(env: Env, ty: Ty, m: seq<byte>, limit: nat, h: Header, stat: CallStat, result: Option<Val>)
    requires h != Malformed
  {
    && XidOf(env, m, limit) == Some(h.xid) && HeaderOf(env, m, limit) == h
    && Understood(env, ty, m, limit) == (stat, result)
  }

  function HeaderOf(env: Env, m: seq<byte>, limit: nat): Header {
    match Dec(env, false, RPC_MSG, m, limit)
    case Failed(_) => Malformed
    case Done(hdr, _) => Open(hdr)
  }

  lemma HeaderRead(env: Env, hdr: Val, s: seq<byte>, rest: seq<byte>, limit: nat)
    requires Is(env, RPC_MSG, hdr, s, 6) && 6 <= limit
    ensures Dec(env, false, RPC_MSG, s + rest, limit) == Done(hdr, rest)
  {
    hide Dec, Enc, Typed, Within, Depth;
    DecEnc(env, false, RPC_MSG, hdr, rest, limit);
  }

  lemma RejectsFrom(hdr: Val, m: seq<byte>)
    requires (forall env: Env :: Is(env, RPC_MSG, hdr, m, 6)) && |m| % 4 == 0
    requires Open(hdr) != Malformed && StatOf(Open(hdr)) != AcceptStat(SUCCESS)
    ensures Rejects(m, Open(hdr))
  {
    hide Is, StatOf, Open, ReadAs;
    var h := Open(hdr);
    forall env: Env, ty: Ty, limit: nat | 6 <= limit ensures ReadAs(env, ty, m, limit, h, StatOf(h), None) {
      ReadError(env, ty, hdr, m, limit);
    }
  }

  lemma ReadError(env: Env, ty: Ty, hdr: Val, m: seq<byte>, limit: nat)
    requires Is(env, RPC_MSG, hdr, m, 6) && |m| % 4 == 0 && 6 <= limit
    requires Open(hdr) != Malformed && StatOf(Open(hdr)) != AcceptStat(SUCCESS)
    ensures ReadAs(env, ty, m, limit, Open(hdr), StatOf(Open(hdr)), None)
  {
    hide Dec, Is, StatOf, Open;
    HeaderRead(env, hdr, m, [], limit);
    assert m + [] == m;
  }

  // ---- the formatted errors --------------------------------------------------

  /** The formatted refusal with status `stat`, and what it means to a client. */
  lemma AcceptedErrorRead(xid: u32, stat: u32)
    requires stat != SUCCESS && stat != PROG_MISMATCH
    ensures Rejects(Words([xid, 1, 0, 0, 0, stat]), Accepted(xid, stat, []))
  {
    hide Is, AreAll, Endian.BigEndian, Words, Rejects;
    var m := Words([xid, REPLY, MSG_ACCEPTED, AUTH_NONE, 0, stat]);
    WordsLength([xid, REPLY, MSG_ACCEPTED, AUTH_NONE, 0, stat]);
    var hdr := AcceptedMsg(xid, stat, []);
    forall env: Env ensures Is(env, RPC_MSG, hdr, m, 6) {
      IsNothing(env, 1);
      DefaultArm(stat);
      AcceptedIs(env, xid, stat, [], [], []);
      assert m + [] == m;
    }
    RejectsFrom(hdr, m);
  }

  lemma DefaultArm(stat: u32)
    requires stat != SUCCESS && stat != PROG_MISMATCH
    ensures Select(REPLY_DATA.arms, SignedOf(stat)) == Some(2) && ChildTys(REPLY_DATA, stat) == []
  {
    var f := Find(REPLY_DATA.arms, Case(SignedOf(stat)));
    assert f == None;
    var d := Find(REPLY_DATA.arms, Default);
    assert Default in REPLY_DATA.arms[2].labels;
    assert Default !in REPLY_DATA.arms[0].labels && Default !in REPLY_DATA.arms[1].labels;
  }

  lemma ProgMismatchRead(xid: u32, low: u32, high: u32)
    ensures Rejects(Words([xid, 1, 0, 0, 0, 2, low, high]),
                    Accepted(xid, PROG_MISMATCH, [VSeq([VWord(low), VWord(high)])]))
  {
    hide Is, AreAll, Endian.BigEndian, Words, Rejects;
    var info := VSeq([VWord(low), VWord(high)]);
    var ws := [xid, REPLY, MSG_ACCEPTED, AUTH_NONE, 0, PROG_MISMATCH];
    var m := Words(ws + [low, high]);
    WordsLength(ws + [low, high]);
    WordsSplit(ws, [low, high]);
    assert ws + [low, high] == [xid, 1, 0, 0, 0, 2, low, high];
    var hdr := AcceptedMsg(xid, PROG_MISMATCH, [info]);
    forall env: Env ensures Is(env, RPC_MSG, hdr, m, 6) {
      TwoWordsIs(env, low, high, 0);
      AreOne(env, MISMATCH_INFO, info, Words([low, high]), 1);
      UnionChild(REPLY_DATA.arms, 1, PROG_MISMATCH);
      AcceptedIs(env, xid, PROG_MISMATCH, [MISMATCH_INFO], [info], Words([low, high]));
    }
    RejectsFrom(hdr, m);
  }

  lemma AuthErrorRead(xid: u32, stat: u32)
    ensures Rejects(Words([xid, 1, 1, 1, stat]), Denied(xid, AUTH_ERROR, [VWord(stat)]))
  {
    hide Is, AreAll, Endian.BigEndian, Words, Rejects;
    var ws := [xid, REPLY, MSG_DENIED, AUTH_ERROR];
    var m := Words(ws + [stat]);
    WordsLength(ws + [stat]);
    WordsSplit(ws, [stat]);
    assert ws + [stat] == [xid, 1, 1, 1, stat];
    WordsOne(stat);
    var hdr := DeniedMsg(xid, AUTH_ERROR, [VWord(stat)]);
    forall env: Env ensures Is(env, RPC_MSG, hdr, m, 6) {
      IsWord(env, Signed, stat, 2);
      AreOne(env, ENUM, VWord(stat), BigEndian(stat), 2);
      UnionChild(REJECTED_REPLY.arms, 1, AUTH_ERROR);
      DeniedIs(env, xid, AUTH_ERROR, [ENUM], [VWord(stat)], BigEndian(stat));
    }
    RejectsFrom(hdr, m);
  }

  lemma RpcMismatchRead(xid: u32)
    ensures Rejects(Words([xid, 1, 1, 0, 2, 2]), Denied(xid, RPC_MISMATCH, [VSeq([VWord(2), VWord(2)])]))
  {
    hide Is, AreAll, Endian.BigEndian, Words, Rejects;
    var info := VSeq([VWord(2), VWord(2)]);
    var ws := [xid, REPLY, MSG_DENIED, RPC_MISMATCH];
    var m := Words(ws + [2, 2]);
    WordsLength(ws + [2, 2]);
    WordsSplit(ws, [2, 2]);
    assert ws + [2, 2] == [xid, 1, 1, 0, 2, 2];
    var hdr := DeniedMsg(xid, RPC_MISMATCH, [info]);
    forall env: Env ensures Is(env, RPC_MSG, hdr, m, 6) {
      TwoWordsIs(env, 2, 2, 1);
      AreOne(env, MISMATCH_INFO, info, Words([2, 2]), 2);
      UnionChild(REJECTED_REPLY.arms, 0, RPC_MISMATCH);
      DeniedIs(env, xid, RPC_MISMATCH, [MISMATCH_INFO], [info], Words([2, 2]));
    }
    RejectsFrom(hdr, m);
  }

  /** rpc_accepted_error_msg(). */
  method AcceptedErrorMsg(bigEndian: bool, xid: u32, stat: u32) returns (m: seq<byte>)
    requires stat != SUCCESS && stat != PROG_MISMATCH
    ensures m == Words([xid, 1, 0, 0, 0, stat]) && Rejects(m, Accepted(xid, stat, []))
  {
    hide Words, Rejects;
    AcceptedErrorRead(xid, stat);
    m := Format(bigEndian, 24, [xid, REPLY, MSG_ACCEPTED, AUTH_NONE, 0, stat]);
  }

  /** rpc_prog_mismatch_msg(). */
  method ProgMismatchMsg(bigEndian: bool, xid: u32, low: u32, high: u32) returns (m: seq<byte>)
    ensures m == Words([xid, 1, 0, 0, 0, 2, low, high])
    ensures Rejects(m, Accepted(xid, PROG_MISMATCH, [VSeq([VWord(low), VWord(high)])]))
  {
    hide Words, Rejects;
    ProgMismatchRead(xid, low, high);
    m := Format(bigEndian, 32, [xid, REPLY, MSG_ACCEPTED, AUTH_NONE, 0, PROG_MISMATCH, low, high]);
  }

  /** rpc_auth_error_msg(). */
  method AuthErrorMsg(bigEndian: bool, xid: u32, stat: u32) returns (m: seq<byte>)
    ensures m == Words([xid, 1, 1, 1, stat]) && Rejects(m, Denied(xid, AUTH_ERROR, [VWord(stat)]))
  {
    hide Words, Rejects;
    AuthErrorRead(xid, stat);
    m := Format(bigEndian, 20, [xid, REPLY, MSG_DENIED, AUTH_ERROR, stat]);
  }

  /** rpc_rpc_mismatch_msg(). */
  method RpcMismatchMsg(bigEndian: bool, xid: u32) returns (m: seq<byte>)
    ensures m == Words([xid, 1, 1, 0, 2, 2]) && Rejects(m, Denied(xid, RPC_MISMATCH, [VSeq([VWord(2), VWord(2)])]))
  {
    hide Words, Rejects;
    RpcMismatchRead(xid);
    m := Format(bigEndian, 24, [xid, REPLY, MSG_DENIED, RPC_MISMATCH, 2, 2]);
  }

  // ---- the success header ----------------------------------------------------

  /** rpc_success_hdr, as save() goes through its fields. */
  const SUCCESS_HDR := TStruct([UINT, ENUM, ENUM, ENUM, UINT, ENUM, THyper(Floating), TBytes(XDR_MAX_LEN)])

  function SuccessHdr(xid: u32, time: u64, path: seq<byte>): Val {
    VSeq([VWord(xid), VWord(REPLY), VWord(MSG_ACCEPTED), VWord(AUTH_NONE), VWord(0), VWord(SUCCESS),
          VHyper(time), VBytes(path)])
  }

  function SuccessInfo(time: u64, path: seq<byte>): Val {
    VSeq([VHyper(time), VBytes(path), VBytes([])])
  }

  function SuccessBytes(xid: u32, time: u64, path: seq<byte>): seq<byte>
    requires |path| <= XDR_MAX_LEN
  {
    Words([xid, 1, 0, 0, 0, 0]) + (BigEndian64(time) + (BigEndian(|path|) + Padded(path)))
  }

  /** A word in front of fields that are known. */
  lemma WordFirst(env: Env, num: Num, w: u32, tys: seq<Ty>, vs: seq<Val>, ws: seq<u32>, s: seq<byte>, d: nat)
    requires AreAll(env, tys, vs, Words(ws) + s, d)
    ensures AreAll(env, [TWord(num)] + tys, [VWord(w)] + vs, Words([w] + ws) + s, d)
  {
    hide Is, AreAll, Endian.BigEndian, Words;
    IsWord(env, num, w, d);
    AreCons(env, TWord(num), VWord(w), BigEndian(w), tys, vs, Words(ws) + s, d);
    WordsCons(w, ws, s);
  }

  /** What is marshaled by hand as the header of a success is one under the grammar. */
  lemma SuccessHdrIs(env: Env, xid: u32, time: u64, path: seq<byte>)
    requires |path| <= XDR_MAX_LEN
    ensures Is(env, SUCCESS_HDR, SuccessHdr(xid, time, path), SuccessBytes(xid, time, path), 1)
    ensures Is(env, RPC_MSG, AcceptedMsg(xid, SUCCESS, [SuccessInfo(time, path)]), SuccessBytes(xid, time, path), 6)
  {
    hide Is, AreAll, Endian.BigEndian, BigEndian64, Padded, Words;
    IsHyper(env, Floating, time, 0);
    IsBytes(env, XDR_MAX_LEN, path, 0);
    var a, b := BigEndian64(time), BigEndian(|path|) + Padded(path);
    var double, str := THyper(Floating), TBytes(XDR_MAX_LEN);
    AreTwo(env, double, VHyper(time), a, str, VBytes(path), b, 0);
    var tys, vs := [double, str], [VHyper(time), VBytes(path)];
    WordsNone(a + b);
    WordFirst(env, Signed, SUCCESS, tys, vs, [], a + b, 0);
    WordFirst(env, Unsigned, 0, [ENUM] + tys, [VWord(SUCCESS)] + vs, [SUCCESS] + [], a + b, 0);
    WordFirst(env, Signed, AUTH_NONE, [UINT] + ([ENUM] + tys), [VWord(0)] + ([VWord(SUCCESS)] + vs),
              [0] + ([SUCCESS] + []), a + b, 0);
    SuccessFields(env, xid, time, path, a + b);
    IsStruct(env, SUCCESS_HDR.fields, SuccessHdr(xid, time, path).vs,
             Words([xid, REPLY, MSG_ACCEPTED, AUTH_NONE, 0, SUCCESS]) + (a + b), 0);

    IsNothing(env, 0);
    AreOne(env, TOpaque(0), VBytes([]), [], 0);
    AreCons(env, str, VBytes(path), b, [TOpaque(0)], [VBytes([])], [], 0);
    AreCons(env, double, VHyper(time), a, [str] + [TOpaque(0)], [VBytes(path)] + [VBytes([])], b + [], 0);
    assert [double] + ([str] + [TOpaque(0)]) == [double, str, TOpaque(0)];
    assert [VHyper(time)] + ([VBytes(path)] + [VBytes([])]) == [VHyper(time), VBytes(path), VBytes([])];
    assert a + (b + []) == a + b;
    IsStruct(env, SUCCESS_INFO.fields, SuccessInfo(time, path).vs, a + b, 0);
    AreOne(env, SUCCESS_INFO, SuccessInfo(time, path), a + b, 1);
    UnionChild(REPLY_DATA.arms, 0, SUCCESS);
    AcceptedIs(env, xid, SUCCESS, [SUCCESS_INFO], [SuccessInfo(time, path)], a + b);
  }

  lemma SuccessFields(env: Env, xid: u32, time: u64, path: seq<byte>, s: seq<byte>)
    requires AreAll(env, [ENUM] + ([UINT] + ([ENUM] + [THyper(Floating), TBytes(XDR_MAX_LEN)])),
      [VWord(AUTH_NONE)] + ([VWord(0)] + ([VWord(SUCCESS)] + [VHyper(time), VBytes(path)])),
      Words([AUTH_NONE] + ([0] + ([SUCCESS] + []))) + s, 0)
    ensures AreAll(env, SUCCESS_HDR.fields, SuccessHdr(xid, time, path).vs,
      Words([xid, REPLY, MSG_ACCEPTED, AUTH_NONE, 0, SUCCESS]) + s, 0)
  {
    hide AreAll, Words;
    var tys := [ENUM] + ([UINT] + ([ENUM] + [THyper(Floating), TBytes(XDR_MAX_LEN)]));
    var vs := [VWord(AUTH_NONE)] + ([VWord(0)] + ([VWord(SUCCESS)] + [VHyper(time), VBytes(path)]));
    var ws := [AUTH_NONE] + ([0] + ([SUCCESS] + []));
    WordFirst(env, Signed, MSG_ACCEPTED, tys, vs, ws, s, 0);
    WordFirst(env, Signed, REPLY, [ENUM] + tys, [VWord(MSG_ACCEPTED)] + vs, [MSG_ACCEPTED] + ws, s, 0);
    WordFirst(env, Unsigned, xid, [ENUM] + ([ENUM] + tys), [VWord(REPLY)] + ([VWord(MSG_ACCEPTED)] + vs),
              [REPLY] + ([MSG_ACCEPTED] + ws), s, 0);
    assert [UINT] + ([ENUM] + ([ENUM] + tys)) == SUCCESS_HDR.fields;
    assert [VWord(xid)] + ([VWord(REPLY)] + ([VWord(MSG_ACCEPTED)] + vs)) == SuccessHdr(xid, time, path).vs;
    assert [xid] + ([REPLY] + ([MSG_ACCEPTED] + ws)) == [xid, REPLY, MSG_ACCEPTED, AUTH_NONE, 0, SUCCESS];
  }

  /** The size that rpc_success_hdr's own serial_size() adds up is what save() marshals. */
  lemma SuccessHdrSize(env: Env, xid: u32, time: u64, path: seq<byte>)
    requires |path| <= XDR_MAX_LEN
    ensures Typed(env, TBytes(XDR_MAX_LEN), VBytes(path)) && Size(env, TBytes(XDR_MAX_LEN), VBytes(path)).Some?
    ensures |SuccessBytes(xid, time, path)| == 32 + Size(env, TBytes(XDR_MAX_LEN), VBytes(path)).value
  {
    hide Endian.BigEndian, BigEndian64, Words;
    WordsLength([xid, REPLY, MSG_ACCEPTED, AUTH_NONE, 0, SUCCESS]);
    RoundUp(|path|);
  }

  /** `m` answers a call: its client, whatever its limit, reads xid, time and path, and gets the result if
      that is within its bounds and not too deep. */
  ghost predicate Answers(env: Env, m: seq<byte>, xid: u32, time: u64, path: seq<byte>, ty: Ty, v: Val)
    requires Typed(env, ty, v)
  {
    var h := Accepted(xid, SUCCESS, [SuccessInfo(time, path)]);
    forall limit: nat | 6 <= limit :: AnsweredAt(env, ty, v, m, limit, h)
  }

  predicate AnsweredAt(env: Env, ty: Ty, v: Val, m: seq<byte>, limit: nat, h: Header)
    requires Typed(env, ty, v) && h != Malformed
  {
    if Within(env, true, ty, v) && Depth(v) <= limit then ReadAs(env, ty, m, limit, h, AcceptStat(SUCCESS), Some(v))
    else ReadAs(env, ty, m, limit, h, GarbageRes, None)
  }

  /** The message of send_reply(): a success header and the result. */
  method SuccessMsg(bigEndian: bool, env: Env, xid: u32, time: u64, path: seq<byte>, ty: Ty, v: Val)
    returns (r: Result<seq<byte>>)
    requires Typed(env, ty, v) && |path| <= XDR_MAX_LEN
    requires |SuccessBytes(xid, time, path)| + |Enc(env, ty, v)| < LAST_FRAGMENT
    ensures r.Ok? <==> Within(env, false, ty, v) && Depth(v) <= 0xffff_ffff
    ensures r.Ok? ==> r.value == SuccessBytes(xid, time, path) + Enc(env, ty, v)
    ensures r.Ok? ==> Answers(env, r.value, xid, time, path, ty, v)
  {
    hide Is, Typed, Within, Enc, Depth, Words, Answers, EncAll, AllTyped, AllWithin, MaxDepth, SuccessBytes;
    var hdr := SuccessHdr(xid, time, path);
    SuccessPair(env, xid, time, path, ty, v);
    var m := ToMsg(bigEndian, env, [SUCCESS_HDR, ty], [hdr, v], 0xffff_ffff);
    if m.Throws? {
      return Throws(m.error);
    }
    assert m.value.Data() == SuccessBytes(xid, time, path) + Enc(env, ty, v);
    AnswersFrom(env, xid, time, path, ty, v);
    return Ok(m.value.raw[4..4 + m.value.size]);
  }

  lemma SuccessPair(env: Env, xid: u32, time: u64, path: seq<byte>, ty: Ty, v: Val)
    requires Typed(env, ty, v) && |path| <= XDR_MAX_LEN
    ensures var tys, vs := [SUCCESS_HDR, ty], [SuccessHdr(xid, time, path), v];
      && AllTyped(env, tys, vs) && EncAll(env, tys, vs) == SuccessBytes(xid, time, path) + Enc(env, ty, v)
      && (AllWithin(env, false, tys, vs) <==> Within(env, false, ty, v))
      && (MaxDepth(vs) <= 0xffff_ffff <==> Depth(v) <= 0xffff_ffff)
  {
    hide Typed, AllTyped, Within, AllWithin, Enc, EncAll, Depth, MaxDepth, SuccessBytes;
    var hdr := SuccessHdr(xid, time, path);
    SuccessHdrIs(env, xid, time, path);
    WithinWeaken(env, SUCCESS_HDR, hdr);
    AllNil(env, false, [], 0);
    assert [ty][1..] == [] && [v] + [] == [v] && [SUCCESS_HDR, ty][1..] == [ty] && [hdr] + [v] == [hdr, v];
    AllCons(env, [ty], v, []);
    AllCons(env, [SUCCESS_HDR, ty], hdr, [v]);
    assert Enc(env, ty, v) + [] == Enc(env, ty, v);
  }

  lemma OpenAccepted(xid: u32, stat: u32, data: seq<Val>)
    ensures Open(AcceptedMsg(xid, stat, data)) == Accepted(xid, stat, data)
  {
  }

  lemma AnswersFrom(env: Env, xid: u32, time: u64, path: seq<byte>, ty: Ty, v: Val)
    requires Typed(env, ty, v) && |path| <= XDR_MAX_LEN
    ensures Answers(env, SuccessBytes(xid, time, path) + Enc(env, ty, v), xid, time, path, ty, v)
  {
    hide Is, Typed, Within, Enc, Depth, SuccessBytes, AnsweredAt, AcceptedMsg, SuccessHdr;
    SuccessHdrIs(env, xid, time, path);
    WholeWords(env, SUCCESS_HDR, SuccessHdr(xid, time, path), SuccessBytes(xid, time, path), 1);
    OpenAccepted(xid, SUCCESS, [SuccessInfo(time, path)]);
    var hdr := AcceptedMsg(xid, SUCCESS, [SuccessInfo(time, path)]);
    var h := Accepted(xid, SUCCESS, [SuccessInfo(time, path)]);
    var s := SuccessBytes(xid, time, path);
    var m := s + Enc(env, ty, v);
    forall limit: nat | 6 <= limit ensures AnsweredAt(env, ty, v, m, limit, h) {
      ReadSuccess(env, ty, v, hdr, s, limit);
    }
  }

  lemma ReadSuccess(env: Env, ty: Ty, v: Val, hdr: Val, s: seq<byte>, limit: nat)
    requires Is(env, RPC_MSG, hdr, s, 6) && |s| % 4 == 0 && 6 <= limit && Typed(env, ty, v)
    requires Open(hdr) != Malformed && StatOf(Open(hdr)) == AcceptStat(SUCCESS)
    ensures AnsweredAt(env, ty, v, s + Enc(env, ty, v), limit, Open(hdr))
  {
    hide Is, Typed, Within, Enc, Depth, Dec, Open, StatOf;
    var t := Enc(env, ty, v);
    Aligned(env, ty, v);
    HeaderRead(env, hdr, s, t, limit);
    DecEnc(env, false, ty, v, [], limit);
    assert t + [] == t;
  }

  /** A tier's client understands refusals with an authentication or version error, but every error of an
      accepted call throws out of its callback. */
  lemma TierEscapes(env: Env, ty: Ty, m: seq<byte>, limit: nat, h: Header)
    requires Rejects(m, h) && 6 <= limit && |m| % 4 == 0 && StatOf(h) != AcceptStat(SUCCESS)
    ensures TierUnderstood(env, ty, m, limit) == if h.Accepted? then Escaped else Got(StatOf(h), None)
  {
    hide Dec, Open;
    assert ReadAs(env, ty, m, limit, h, StatOf(h), None);
  }

  /** What the callback of a call gets for the message `m`: the xid that it names, a status and a result. */
  function CallbackGets(env: Env, ty: Ty, m: seq<byte>, limit: nat): (Option<u32>, CallStat, Option<Val>) {
    var u := Understood(env, ty, m, limit);
    (XidOf(env, m, limit), u.0, u.1)
  }

  /** What the client of a call, whatever result it expects, makes of the words of each formatted refusal. */
  lemma RefusalUnderstood(env: Env, ty: Ty, xid: u32, stat: u32, low: u32, high: u32, limit: nat)
    requires 6 <= limit
    ensures stat != 0 && stat != 2 ==>
      CallbackGets(env, ty, Words([xid, 1, 0, 0, 0, stat]), limit) == (Some(xid), AcceptStat(stat), None)
    ensures CallbackGets(env, ty, Words([xid, 1, 0, 0, 0, 2, low, high]), limit) == (Some(xid), AcceptStat(2), None)
    ensures CallbackGets(env, ty, Words([xid, 1, 1, 1, stat]), limit) == (Some(xid), AuthStat(stat), None)
    ensures CallbackGets(env, ty, Words([xid, 1, 1, 0, 2, 2]), limit) == (Some(xid), RpcversMismatch, None)
  {
    hide Words, Understood, XidOf, HeaderOf;
    if stat != 0 && stat != 2 {
      AcceptedErrorRead(xid, stat);
      RejectedGets(env, ty, Words([xid, 1, 0, 0, 0, stat]), limit, Accepted(xid, stat, []));
    }
    ProgMismatchRead(xid, low, high);
    RejectedGets(env, ty, Words([xid, 1, 0, 0, 0, 2, low, high]), limit,
                    Accepted(xid, PROG_MISMATCH, [VSeq([VWord(low), VWord(high)])]));
    AuthErrorRead(xid, stat);
    RejectedGets(env, ty, Words([xid, 1, 1, 1, stat]), limit, Denied(xid, AUTH_ERROR, [VWord(stat)]));
    RpcMismatchRead(xid);
    RejectedGets(env, ty, Words([xid, 1, 1, 0, 2, 2]), limit,
                    Denied(xid, RPC_MISMATCH, [VSeq([VWord(2), VWord(2)])]));
  }

  /** Of a result as well. */
  lemma ResultUnderstood(env: Env, ty: Ty, v: Val, xid: u32, time: u64, path: seq<byte>, limit: nat)
    requires Typed(env, ty, v) && |path| <= XDR_MAX_LEN && 6 <= limit
    ensures var m := Words([xid, 1, 0, 0, 0, 0]) + (BigEndian64(time) + (BigEndian(|path|) + Padded(path)))
        + Enc(env, ty, v);
      CallbackGets(env, ty, m, limit) == if Within(env, true, ty, v) && Depth(v) <= limit then
        (Some(xid), AcceptStat(0), Some(v)) else (Some(xid), GarbageRes, None)
  {
    hide Words, Understood, XidOf, HeaderOf, Typed, Within, Enc, Depth, Padded, Endian.BigEndian, BigEndian64;
    var m := SuccessBytes(xid, time, path) + Enc(env, ty, v);
    AnswersFrom(env, xid, time, path, ty, v);
    assert AnsweredAt(env, ty, v, m, limit, Accepted(xid, SUCCESS, [SuccessInfo(time, path)]));
  }

  lemma RejectedGets(env: Env, ty: Ty, m: seq<byte>, limit: nat, h: Header)
    requires Rejects(m, h) && 6 <= limit
    ensures CallbackGets(env, ty, m, limit) == (Some(h.xid), StatOf(h), None)
  {
    hide Understood, XidOf, HeaderOf, StatOf;
    assert ReadAs(env, ty, m, limit, h, StatOf(h), None);
  }
}
