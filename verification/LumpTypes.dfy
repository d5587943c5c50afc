/** SIP message edit scripts: the lump lists of ser, the conditions and the
    substitutions that a lump can carry. */
module LumpTypes {
  import opened Options
  import opened IpAddress

  const SIP_PORT := 5060
  const TRANSPORT_PARAM := ";transport="

  /** PROTO_* codes; an unknown code is logged and adds nothing. */
  datatype Proto = ProtoNone | Udp | Tcp | Tls | Sctp | UnknownProto(code: int)

  datatype Socket = Socket(address: IpAddr, addressStr: string, portNo: nat, portNoStr: string, proto: Proto)

  /** Everything outside the lump that decides what it expands to: where the
      message came from, where it is sent and what the random generator says. */
  datatype Ctx = Ctx(
    bind: Option<Socket>, dstIp: IpAddr, dstPort: nat, rcvProto: Proto,
    globalAddress: string, globalPort: string,
    sendSock: Option<Socket>,
    coin: bool)

  datatype Condition = CondFalse | CondTrue | DiffRealms | DiffAf | DiffProto | DiffPort | DiffIp | CondRand

  datatype SubstKind = SubstNop | RcvIp | SndIp | RcvPort | SndPort | RcvProto | SndProto | RcvAll | SndAll

  /** What may stand in a before or after chain. */
  datatype Piece = Text(value: string) | Subst(kind: SubstKind) | Opt(cond: Condition)

  datatype Op = Nop(offset: nat) | Del(offset: nat, len: nat) | Insert(piece: Piece)

  datatype Lump = Lump(op: Op, before: seq<Piece>, after: seq<Piece>) {
    predicate Anchored() { !op.Insert? }
    function Removed(): nat { if op.Del? then op.len else 0 }
  }

  /** lump_check_opt: without a sending socket every comparison reads as different. */
  predicate Holds(c: Condition, ctx: Ctx) {
    match c
    case CondFalse => false
    case CondTrue => true
    case CondRand => ctx.coin
    case _ =>
      if ctx.sendSock.None? then true
      else
        var ip := if ctx.bind.Some? then ctx.bind.value.address else ctx.dstIp;
        var port := if ctx.bind.Some? then ctx.bind.value.portNo else ctx.dstPort;
        var proto := if ctx.bind.Some? then ctx.bind.value.proto else ctx.rcvProto;
        var snd := ctx.sendSock.value;
        match c
        case DiffRealms => !(port == snd.portNo && proto == snd.proto && ip == snd.address)
        case DiffAf => ip.inet != snd.address.inet
        case DiffProto => proto != snd.proto
        case DiffPort => port != snd.portNo
        case _ => ip != snd.address
  }

  // ----- What the conditions say

  /** The conditions that compare the socket a message came in by with the one it goes out by. */
  predicate Compares(c: Condition) {
    c == DiffRealms || c == DiffAf || c == DiffProto || c == DiffPort || c == DiffIp
  }

  /** Without a socket to send from every comparison reads as different; a message that goes
      out by the socket it came in by differs in nothing. */
  lemma SameSocketNoDifference(c: Condition, ctx: Ctx)
    requires Compares(c)
    ensures ctx.sendSock.None? ==> Holds(c, ctx)
    ensures ctx.sendSock.Some? && ctx.sendSock == ctx.bind ==> !Holds(c, ctx)
  {
  }

  /** The realms differ if and only if address, port or protocol do; a difference of the
      address family is one of the address. */
  lemma RealmsDifferIff(ctx: Ctx)
    requires ctx.sendSock.Some?
    ensures Holds(DiffRealms, ctx) <==> Holds(DiffIp, ctx) || Holds(DiffPort, ctx) || Holds(DiffProto, ctx)
    ensures Holds(DiffAf, ctx) ==> Holds(DiffIp, ctx)
  {
  }

  /** Two sockets that differ in one part satisfy exactly the conditions of that part. */
  lemma OneDifference(c: Condition, ctx: Ctx, was: Socket, address: IpAddr, portNo: nat, proto: Proto)
    requires Compares(c) && ctx.bind == Some(was)
    ensures address != was.address && ctx.sendSock == Some(was.(address := address)) ==>
              (Holds(c, ctx) <==> c == DiffRealms || c == DiffIp || (c == DiffAf && address.inet != was.address.inet))
    ensures portNo != was.portNo && ctx.sendSock == Some(was.(portNo := portNo)) ==>
              (Holds(c, ctx) <==> c == DiffRealms || c == DiffPort)
    ensures proto != was.proto && ctx.sendSock == Some(was.(proto := proto)) ==>
              (Holds(c, ctx) <==> c == DiffRealms || c == DiffProto)
  {
  }

  /** Each condition looks at its own part of the two sockets and at nothing else. */
  lemma OwnPartOnly(a: Ctx, b: Ctx)
    requires a.bind.Some? && b.bind.Some? && a.sendSock.Some? && b.sendSock.Some?
    ensures a.bind.value.portNo == b.bind.value.portNo && a.sendSock.value.portNo == b.sendSock.value.portNo ==>
              (Holds(DiffPort, a) <==> Holds(DiffPort, b))
    ensures a.bind.value.proto == b.bind.value.proto && a.sendSock.value.proto == b.sendSock.value.proto ==>
              (Holds(DiffProto, a) <==> Holds(DiffProto, b))
    ensures a.bind.value.address == b.bind.value.address && a.sendSock.value.address == b.sendSock.value.address ==>
              (Holds(DiffIp, a) <==> Holds(DiffIp, b)) && (Holds(DiffAf, a) <==> Holds(DiffAf, b))
  {
  }

  /** Without a socket it came in by, a message is taken as it was received. */
  lemma UnboundAsReceived(c: Condition, ctx: Ctx, was: Socket)
    requires ctx.bind.None? && was.address == ctx.dstIp && was.portNo == ctx.dstPort && was.proto == ctx.rcvProto
    ensures Holds(c, ctx) <==> Holds(c, ctx.(bind := Some(was)))
  {
  }

  /** The constant conditions, and the one that tosses a coin. */
  lemma ConstantConditions(ctx: Ctx)
    ensures Holds(CondTrue, ctx) && !Holds(CondFalse, ctx) && (Holds(CondRand, ctx) <==> ctx.coin)
  {
  }

  /** The address and port shown for the sending side, when there is one. */
  function SendAddress(ctx: Ctx): string
    requires ctx.sendSock.Some?
  {
    if ctx.globalAddress != "" then ctx.globalAddress else ctx.sendSock.value.addressStr
  }

  function SendPort(ctx: Ctx): string
    requires ctx.sendSock.Some?
  {
    if ctx.globalPort != "" then ctx.globalPort else ctx.sendSock.value.portNoStr
  }

  /** Brackets go around an address of our own socket unless it is IPv4. */
  predicate SendBrackets(ctx: Ctx)
    requires ctx.sendSock.Some?
  {
    !ctx.sendSock.value.address.inet && ctx.globalAddress == ""
  }

  predicate SendShowsPort(ctx: Ctx)
    requires ctx.sendSock.Some?
  {
    ctx.sendSock.value.portNo != SIP_PORT || ctx.globalPort != ""
  }

  /** The length pass of SUBST_LUMP_LEN: pure arithmetic on string lengths. */
  function SubstLen(kind: SubstKind, ctx: Ctx): nat {
    match kind
    case SubstNop => 0
    case RcvIp =>
      if ctx.bind.None? then 0
      else |ctx.bind.value.addressStr| + (if !ctx.bind.value.address.inet then 2 else 0)
    case RcvPort => if ctx.bind.None? then 0 else |ctx.bind.value.portNoStr|
    case RcvProto => if ctx.bind.None? then 0 else ProtoLen(ctx.bind.value.proto)
    case RcvAll =>
      if ctx.bind.None? then 0
      else
        |ctx.bind.value.addressStr| + (if !ctx.bind.value.address.inet then 2 else 0)
        + (if ctx.bind.value.portNo != SIP_PORT then 1 + |ctx.bind.value.portNoStr| else 0)
        + TransportLen(ctx.bind.value.proto)
    case SndIp =>
      if ctx.sendSock.None? then 0 else |SendAddress(ctx)| + (if SendBrackets(ctx) then 2 else 0)
    case SndPort => if ctx.sendSock.None? then 0 else |SendPort(ctx)|
    case SndProto => if ctx.sendSock.None? then 0 else ProtoLen(ctx.sendSock.value.proto)
    case SndAll =>
      if ctx.sendSock.None? then 0
      else
        |SendAddress(ctx)| + (if SendBrackets(ctx) then 2 else 0)
        + (if SendShowsPort(ctx) then 1 + |SendPort(ctx)| else 0)
        + TransportLen(ctx.sendSock.value.proto)
  }

  function ProtoLen(p: Proto): nat {
    match p
    case ProtoNone | Udp | Tcp | Tls => 3
    case Sctp => 4
    case UnknownProto(_) => 0
  }

  function TransportLen(p: Proto): nat {
    match p
    case Tcp | Tls => |TRANSPORT_PARAM| + 3
    case Sctp => |TRANSPORT_PARAM| + 4
    case _ => 0
  }

  /** The text a substitution stands for. */
  function SubstText(kind: SubstKind, ctx: Ctx): string {
    match kind
    case SubstNop => ""
    case RcvIp => if ctx.bind.None? then "" else Bracketed(ctx.bind.value.addressStr, !ctx.bind.value.address.inet)
    case RcvPort => if ctx.bind.None? then "" else ctx.bind.value.portNoStr
    case RcvProto => if ctx.bind.None? then "" else ProtoText(ctx.bind.value.proto)
    case RcvAll =>
      if ctx.bind.None? then ""
      else
        AddressAndPort(ctx.bind.value.addressStr, !ctx.bind.value.address.inet,
                       ctx.bind.value.portNo != SIP_PORT, ctx.bind.value.portNoStr, ctx.bind.value.proto)
    case SndIp => if ctx.sendSock.None? then "" else Bracketed(SendAddress(ctx), SendBrackets(ctx))
    case SndPort => if ctx.sendSock.None? then "" else SendPort(ctx)
    case SndProto => if ctx.sendSock.None? then "" else ProtoText(ctx.sendSock.value.proto)
    case SndAll =>
      if ctx.sendSock.None? then ""
      else
        AddressAndPort(SendAddress(ctx), SendBrackets(ctx), SendShowsPort(ctx), SendPort(ctx), ctx.sendSock.value.proto)
  }

  /** address[:port][;transport=proto] */
  function AddressAndPort(address: string, brackets: bool, showPort: bool, port: string, proto: Proto): string {
    Bracketed(address, brackets) + (if showPort then ":" + port else "") + TransportText(proto)
  }

  function Bracketed(s: string, brackets: bool): string {
    if brackets then "[" + s + "]" else s
  }

  function ProtoText(p: Proto): string {
    match p
    case ProtoNone | Udp => "udp"
    case Tcp => "tcp"
    case Tls => "tls"
    case Sctp => "sctp"
    case UnknownProto(_) => ""
  }

  function TransportText(p: Proto): string {
    match p
    case Tcp => TRANSPORT_PARAM + "tcp"
    case Tls => TRANSPORT_PARAM + "tls"
    case Sctp => TRANSPORT_PARAM + "sctp"
    case _ => ""
  }

  /** The two passes agree on every substitution in every context. */
  lemma SubstLenIsTextLength(kind: SubstKind, ctx: Ctx)
    ensures SubstLen(kind, ctx) == |SubstText(kind, ctx)|
  {
    assert |":"| == 1;
  }

  /** The enabled text of a before or after chain: a condition that does not
      hold cuts off everything behind it. */
  function ChainText(chain: seq<Piece>, ctx: Ctx): string {
    if chain == [] then ""
    else match chain[0]
      case Text(v) => v + ChainText(chain[1..], ctx)
      case Subst(k) => SubstText(k, ctx) + ChainText(chain[1..], ctx)
      case Opt(c) => if Holds(c, ctx) then ChainText(chain[1..], ctx) else ""
  }

  // ----- What the substitutions say

  /** Each side has its own kinds: what the message came in by and what it goes out by do not
      show in the texts of the other. */
  lemma SidesApart(kind: SubstKind, a: Ctx, b: Ctx)
    ensures (kind == RcvIp || kind == RcvPort || kind == RcvProto || kind == RcvAll) && a.bind == b.bind ==>
              SubstText(kind, a) == SubstText(kind, b)
    ensures (kind == SndIp || kind == SndPort || kind == SndProto || kind == SndAll) && a.sendSock == b.sendSock
            && a.globalAddress == b.globalAddress && a.globalPort == b.globalPort ==>
              SubstText(kind, a) == SubstText(kind, b)
  {
  }

  /** The kind of the one side that goes with one of the other. */
  function OtherSide(kind: SubstKind): SubstKind {
    match kind
    case SubstNop => SubstNop
    case RcvIp => SndIp
    case RcvPort => SndPort
    case RcvProto => SndProto
    case RcvAll => SndAll
    case SndIp => RcvIp
    case SndPort => RcvPort
    case SndProto => RcvProto
    case SndAll => RcvAll
  }

  /** Both sides read alike when they are the same socket, shown by its own address. */
  lemma SidesAlike(kind: SubstKind, ctx: Ctx)
    requires ctx.bind == ctx.sendSock && ctx.globalAddress == "" && ctx.globalPort == ""
    ensures SubstText(kind, ctx) == SubstText(OtherSide(kind), ctx)
  {
  }

  /** The kind for everything is made of the other three: the port unless it is the one of SIP,
      the transport unless it is the default. */
  lemma AllIsItsParts(ctx: Ctx)
    ensures ctx.bind.Some? ==>
              SubstText(RcvAll, ctx)
              == SubstText(RcvIp, ctx)
                 + (if ctx.bind.value.portNo == 5060 then "" else ":" + SubstText(RcvPort, ctx))
                 + (if ctx.bind.value.proto in {Tcp, Tls, Sctp} then ";transport=" + SubstText(RcvProto, ctx) else "")
    ensures ctx.sendSock.Some? ==>
              SubstText(SndAll, ctx)
              == SubstText(SndIp, ctx)
                 + (if ctx.sendSock.value.portNo == 5060 && ctx.globalPort == "" then ""
                    else ":" + SubstText(SndPort, ctx))
                 + (if ctx.sendSock.value.proto in {Tcp, Tls, Sctp} then ";transport=" + SubstText(SndProto, ctx)
                    else "")
  {
  }

  /** A socket's address stands in brackets if it is an IPv6 address; a global address and a
      global port, given as text, stand in their place as they are. */
  lemma PartsOfSide(ctx: Ctx)
    requires ctx.sendSock.Some?
    ensures var snd := ctx.sendSock.value;
            SubstText(SndIp, ctx) == if ctx.globalAddress != "" then ctx.globalAddress
                                     else if snd.address.inet then snd.addressStr else "[" + snd.addressStr + "]"
    ensures SubstText(SndPort, ctx) == if ctx.globalPort != "" then ctx.globalPort else ctx.sendSock.value.portNoStr
    ensures match ctx.sendSock.value.proto
            case ProtoNone | Udp => SubstText(SndProto, ctx) == "udp"
            case Tcp => SubstText(SndProto, ctx) == "tcp"
            case Tls => SubstText(SndProto, ctx) == "tls"
            case Sctp => SubstText(SndProto, ctx) == "sctp"
            case UnknownProto(_) => SubstText(SndProto, ctx) == ""
  {
  }

  /** What a piece adds by itself. */
  function PieceText(p: Piece, ctx: Ctx): string {
    match p
    case Text(v) => v
    case Subst(k) => SubstText(k, ctx)
    case Opt(_) => ""
  }

  /** No condition of the chain cuts off what comes behind it. */
  predicate Open(chain: seq<Piece>, ctx: Ctx) {
    forall i :: 0 <= i < |chain| && chain[i].Opt? ==> Holds(chain[i].cond, ctx)
  }

  /** A chain goes on where the first part of it ends, unless a condition has cut it off. */
  lemma {:induction false} ChainSplit(a: seq<Piece>, b: seq<Piece>, ctx: Ctx)
    ensures ChainText(a + b, ctx) == ChainText(a, ctx) + (if Open(a, ctx) then ChainText(b, ctx) else "")
  {
    if a == [] {
      assert a + b == b;
    } else {
      assert (a + b)[0] == a[0] && (a + b)[1..] == a[1..] + b;
      ChainSplit(a[1..], b, ctx);
      OpenFirst(a, ctx);
    }
  }

  lemma OpenFirst(a: seq<Piece>, ctx: Ctx)
    requires a != []
    ensures Open(a, ctx) <==> (a[0].Opt? ==> Holds(a[0].cond, ctx)) && Open(a[1..], ctx)
  {
    if (a[0].Opt? ==> Holds(a[0].cond, ctx)) && Open(a[1..], ctx) {
      forall i | 0 <= i < |a| && a[i].Opt? ensures Holds(a[i].cond, ctx) {
        if i > 0 { assert a[1..][i - 1] == a[i]; }
      }
    }
  }

  /** The text of a chain with one piece more, `depth` steps into it. */
  function TextWith(chain: seq<Piece>, depth: nat, piece: Piece, ctx: Ctx): string
    requires depth <= |chain|
  {
    ChainText(chain[..depth], ctx)
    + (if !Open(chain[..depth], ctx) then ""
       else PieceText(piece, ctx) + (if Open([piece], ctx) then ChainText(chain[depth..], ctx) else ""))
  }

  /** A piece put into a chain is written at its place, once, and only a condition that is in
      front of it, or that it is itself, cuts anything off. */
  lemma PieceInserted(chain: seq<Piece>, depth: nat, piece: Piece, ctx: Ctx)
    requires depth <= |chain|
    ensures ChainText(chain[..depth] + [piece] + chain[depth..], ctx) == TextWith(chain, depth, piece, ctx)
  {
    var a, b := chain[..depth], chain[depth..];
    assert a + [piece] + b == a + ([piece] + b);
    ChainSplit(a, [piece] + b, ctx);
    ChainSplit([piece], b, ctx);
    assert ChainText([piece], ctx) == PieceText(piece, ctx);
  }

  /** Behind a condition on the realms a chain goes on if and only if the socket the message
      goes out by is not the one it came in by. */
  lemma BehindRealms(a: seq<Piece>, b: seq<Piece>, ctx: Ctx)
    requires Open(a, ctx) && ctx.bind.Some? && ctx.sendSock.Some?
    ensures var rcv, snd := ctx.bind.value, ctx.sendSock.value;
            ChainText(a + [Opt(DiffRealms)] + b, ctx)
            == if rcv.address == snd.address && rcv.portNo == snd.portNo && rcv.proto == snd.proto
               then ChainText(a, ctx) else ChainText(a, ctx) + ChainText(b, ctx)
  {
    BehindCondition(a, DiffRealms, b, ctx);
  }

  /** And in general if and only if the condition holds. */
  lemma BehindCondition(a: seq<Piece>, c: Condition, b: seq<Piece>, ctx: Ctx)
    requires Open(a, ctx)
    ensures ChainText(a + [Opt(c)] + b, ctx)
         == if Holds(c, ctx) then ChainText(a, ctx) + ChainText(b, ctx) else ChainText(a, ctx)
  {
    assert a + [Opt(c)] + b == a + ([Opt(c)] + b);
    assert ([Opt(c)] + b)[1..] == b;
    ChainSplit(a, [Opt(c)] + b, ctx);
    assert ChainText(a, ctx) + "" == ChainText(a, ctx);
  }

  function MainText(op: Op, ctx: Ctx): string {
    match op
    case Insert(Text(v)) => v
    case Insert(Subst(k)) => SubstText(k, ctx)
    case _ => ""
  }

  /** A top-level condition that does not hold disables the whole lump. */
  predicate Disabled(t: Lump, ctx: Ctx) {
    t.op.Insert? && t.op.piece.Opt? && !Holds(t.op.piece.cond, ctx)
  }

  /** Everything one lump adds to the message. */
  function LumpText(t: Lump, ctx: Ctx): string {
    if Disabled(t, ctx) then ""
    else ChainText(t.before, ctx) + MainText(t.op, ctx) + ChainText(t.after, ctx)
  }

  /** A lump is written between the text before it and the text after it; a condition in its
      place that does not hold takes both away. */
  lemma AroundLump(t: Lump, ctx: Ctx)
    ensures var own := if t.op.Insert? then PieceText(t.op.piece, ctx) else "";
            !t.op.Insert? || !t.op.piece.Opt? || Holds(t.op.piece.cond, ctx) ==>
              ChainText(t.before, ctx) <= LumpText(t, ctx)
              && LumpText(t, ctx)[|ChainText(t.before, ctx)|..] == own + ChainText(t.after, ctx)
    ensures t.op.Insert? && t.op.piece.Opt? && !Holds(t.op.piece.cond, ctx) ==> LumpText(t, ctx) == ""
  {
  }

  function AllText(l: seq<Lump>, ctx: Ctx): string {
    if l == [] then "" else LumpText(l[0], ctx) + AllText(l[1..], ctx)
  }
}
