/** The lumps of a reply, and the two passes that build one from a request. */
module ReplyBuild {
  import opened Options
  import opened SeqFacts
  import opened Buffers
  import opened Decimal
  import opened SipText

  // ----- Reply lumps

  /** The flags are LUMP_RPL_HDR and LUMP_RPL_BODY. */
  datatype ReplyLump = ReplyLump(text: string, hdr: bool, body: bool)

  predicate HasBody(l: seq<ReplyLump>) {
    exists i :: 0 <= i < |l| && l[i].body
  }

  /** Every lump is header or body but not both, and not empty; at most one is a body. */
  ghost predicate LumpsOk(l: seq<ReplyLump>) {
    (forall i :: 0 <= i < |l| ==> l[i].hdr != l[i].body && l[i].text != "")
    && forall i, j :: 0 <= i < j < |l| ==> !(l[i].body && l[j].body)
  }

  /** struct lump_rpl: a lump and the link to the next one. */
  class LumpNode {
    const lump: ReplyLump
    var next: LumpNode?

    constructor (lump: ReplyLump)
      ensures this.lump == lump && next == null
    {
      this.lump, next := lump, null;
    }
  }

  function LumpsOf(nodes: seq<LumpNode>): (r: seq<ReplyLump>)
    ensures |r| == |nodes|
  {
    seq(|nodes|, i requires 0 <= i < |nodes| => nodes[i].lump)
  }

  /** The nodes in order, without one. */
  ghost function Unlinked(nodes: seq<LumpNode>, x: LumpNode?): seq<LumpNode> {
    if nodes == [] then [] else if nodes[0] == x then nodes[1..] else [nodes[0]] + Unlinked(nodes[1..], x)
  }

  lemma {:induction false} UnlinkedAt(nodes: seq<LumpNode>, x: LumpNode?, i: nat)
    requires i <= |nodes| && forall k :: 0 <= k < i ==> nodes[k] != x
    requires i == |nodes| || nodes[i] == x
    ensures Unlinked(nodes, x) == if i < |nodes| then nodes[..i] + nodes[i + 1..] else nodes
  {
    if i > 0 {
      UnlinkedAt(nodes[1..], x, i - 1);
      if i < |nodes| { OneBack(nodes, i); }
    }
  }

  lemma OneBack(nodes: seq<LumpNode>, i: nat)
    requires 0 < i < |nodes|
    ensures [nodes[0]] + (nodes[1..][..i - 1] + nodes[1..][i..]) == nodes[..i] + nodes[i + 1..]
  {
    assert nodes[..i] == [nodes[0]] + nodes[1..][..i - 1] && nodes[1..][i..] == nodes[i + 1..];
    Assoc([nodes[0]], nodes[1..][..i - 1], nodes[i + 1..]);
  }

  ghost predicate Apart(nodes: seq<LumpNode>) {
    forall i, j :: 0 <= i < j < |nodes| ==> nodes[i] != nodes[j]
  }

  /** msg->reply_lump */
  class ReplyLumps {
    var first: LumpNode?
    ghost var nodes: seq<LumpNode>

    /** The node at a place; the null pointer behind the last. */
    ghost function At(i: nat): LumpNode?
      reads this
    {
      if i < |nodes| then nodes[i] else null
    }

    ghost predicate Chained()
      reads this, nodes
    {
      first == At(0) && (forall i :: 0 <= i < |nodes| ==> nodes[i].next == At(i + 1))
      && Apart(nodes)
    }

    ghost predicate Valid()
      reads this, nodes
    {
      Chained() && LumpsOk(LumpsOf(nodes))
    }

    constructor ()
      ensures Valid() && nodes == []
    {
      first, nodes := null, [];
    }

    /** add_lump_rpl2; no text stands for a null pointer. */
    method Add(s: Option<string>, hdr: bool, body: bool, shmem: bool) returns (added: LumpNode?)
      requires Valid()
      modifies this, nodes
      ensures Valid()
      ensures added != null
              <==> hdr != body && !shmem && s.Some? && s.value != "" && !(body && HasBody(LumpsOf(old(nodes))))
      ensures added != null ==> fresh(added) && added.lump == ReplyLump(s.value, hdr, body)
      ensures nodes == if added != null then old(nodes) + [added] else old(nodes)
    {
      if (hdr && body) || (!hdr && !body) || shmem { return null; }
      if s.None? || |s.value| == 0 { return null; }
      var node := new LumpNode(ReplyLump(s.value, hdr, body));
      if first == null {
        LinkBehind(null, node);
      } else {
        var foo := FindLast(body);
        if foo == null { return null; }
        LinkBehind(foo, node);
      }
      return node;
    }

    /** The walk to the last node, which a second body does not survive. */
    method FindLast(body: bool) returns (foo: LumpNode?)
      requires Valid() && first != null
      ensures foo == null <==> body && HasBody(LumpsOf(nodes))
      ensures foo != null ==> nodes != [] && foo == nodes[|nodes| - 1]
    {
      foo := first;
      ghost var i := 0;
      while true
        invariant i < |nodes| && foo == nodes[i]
        invariant body ==> forall k :: 0 <= k < i ==> !LumpsOf(nodes)[k].body
        decreases |nodes| - i
      {
        if body && foo.lump.body {
          assert LumpsOf(nodes)[i].body;
          return null;
        }
        if foo.next == null { break; }
        foo := foo.next;
        i := i + 1;
      }
    }

    method LinkBehind(last: LumpNode?, node: LumpNode)
      requires Valid() && node !in nodes && node.next == null
               && last == if nodes == [] then null else nodes[|nodes| - 1]
      requires LumpsOk(LumpsOf(nodes) + [node.lump])
      modifies this, nodes
      ensures Valid() && nodes == old(nodes) + [node]
    {
      if last == null { first := node; } else { last.next := node; }
      ghost var was := nodes;
      nodes := nodes + [node];
      assert LumpsOf(nodes) == LumpsOf(was) + [node.lump];
    }

    /** unlink_lump_rpl: finds the lump by its address and links its neighbours. */
    method Unlink(lump: LumpNode?)
      requires Valid()
      modifies this, nodes
      ensures Valid() && nodes == Unlinked(old(nodes), lump)
    {
      var foo, prev: LumpNode? := first, null;
      ghost var i := 0;
      while foo != null && foo != lump
        invariant i <= |nodes| && foo == At(i) && prev == if i == 0 then null else nodes[i - 1]
        invariant forall k :: 0 <= k < i ==> nodes[k] != lump
        decreases |nodes| - i
      {
        prev := foo;
        foo := foo.next;
        i := i + 1;
      }
      UnlinkedAt(nodes, lump, i);
      if foo != null {
        StillOk(nodes, i);
        Relink(prev, foo, i);
      }
    }

    method Relink(prev: LumpNode?, foo: LumpNode, ghost i: nat)
      requires Chained() && i < |nodes| && foo == nodes[i] && prev == if i == 0 then null else nodes[i - 1]
      modifies this, nodes
      ensures Chained() && nodes == old(nodes)[..i] + old(nodes)[i + 1..]
    {
      if prev != null { prev.next := foo.next; } else { first := foo.next; }
      ghost var was := nodes;
      nodes := nodes[..i] + nodes[i + 1..];
      WithoutAt(was, i);
      forall k | 0 <= k < |nodes| ensures nodes[k].next == At(k + 1) {
        if k >= i { assert nodes[k] == was[k + 1]; }
      }
    }

    /** The places once one node is out. */
    lemma WithoutAt(was: seq<LumpNode>, i: nat)
      requires i < |was| && Apart(was)
      ensures var rest := was[..i] + was[i + 1..];
              Apart(rest) && forall k :: 0 <= k < |rest| ==> rest[k] == was[if k < i then k else k + 1]
    {
    }

    lemma StillOk(nodes: seq<LumpNode>, i: nat)
      requires i < |nodes| && LumpsOk(LumpsOf(nodes))
      ensures LumpsOk(LumpsOf(nodes[..i] + nodes[i + 1..]))
    {
      var rest := nodes[..i] + nodes[i + 1..];
      assert forall k :: 0 <= k < |rest| ==> LumpsOf(rest)[k] == LumpsOf(nodes)[if k < i then k else k + 1];
    }
  }

  // ----- The request and the reply

  datatype Kind = ToHdr | ViaHdr | RecordRouteHdr | FromHdr | CallIdHdr | CSeqHdr | OtherHdr

  /** The value of a To tag: where it begins in the message, if its pointer is set, and its length. */
  datatype Tag = Tag(at: Option<nat>, len: nat)

  /** A header of the request: its place and length in the message, its line end included,
      the place where its body ends, and its own tag if it is a To header. */
  datatype Header = Header(kind: Kind, at: nat, len: nat, upTo: nat, via1: bool, tag: Tag)

  /** The rport parameter of the first Via: where it begins in the message, and its size. */
  datatype Rport = Rport(start: nat, size: nat)

  /** What the reply is built from; the texts made by other builders are given. `toTag` is
      the tag of msg->to, the first To header, which the code uses for every To header. */
  datatype Reply = Reply(
    message: string, version: string, code: nat, reason: string, newTag: string, toTag: Tag,
    headers: seq<Header>, rport: Option<Rport>, forceRport: bool, lumps: seq<ReplyLump>,
    rportText: string, received: Option<string>, server: Option<string>, warning: Option<string>)

  predicate UsesRport(m: Reply) { m.forceRport || m.rport.Some? }

  predicate TagWithin(t: Tag, from: nat, to: nat) {
    if t.at.Some? then from <= t.at.value && t.at.value + t.len <= to else t.len == 0
  }

  /** What the parser promises about a header. */
  ghost predicate Parsed(h: Header, m: Reply) {
    h.at <= h.upTo < h.at + h.len <= |m.message| && (h.via1 ==> h.kind == ViaHdr) && TagWithin(h.tag, h.at + 1, h.upTo)
    && (h.via1 && m.rport.Some? ==> h.at < m.rport.value.start && m.rport.value.start + m.rport.value.size <= h.upTo)
  }

  function CountVia1(hs: seq<Header>): nat
    decreases |hs|
  {
    if hs == [] then 0 else CountVia1(hs[..|hs| - 1]) + if hs[|hs| - 1].via1 then 1 else 0
  }

  function CountTo(hs: seq<Header>): nat
    decreases |hs|
  {
    if hs == [] then 0 else CountTo(hs[..|hs| - 1]) + if hs[|hs| - 1].kind == ToHdr then 1 else 0
  }

  /** The tag of the first To header. */
  function ToTag(hs: seq<Header>): Tag {
    if hs == [] then Tag(None, 0) else if hs[0].kind == ToHdr then hs[0].tag else ToTag(hs[1..])
  }

  ghost predicate Wellformed(m: Reply) {
    (forall i :: 0 <= i < |m.headers| ==> Parsed(m.headers[i], m)) && CountVia1(m.headers) == 1
    && (forall i, j :: 0 <= i < j < |m.headers| ==> m.headers[i].at + m.headers[i].len <= m.headers[j].at)
    && m.toTag == ToTag(m.headers) && LumpsOk(m.lumps) && forall i :: 0 <= i < |m.lumps| ==>
        |m.lumps[i].text| < 0x8000_0000
  }

  /** The copies around the replaced tag are none of negative length. */
  ghost predicate Copyable(h: Header, m: Reply) {
    h.kind == ToHdr && m.newTag != "" ==> TagWithin(m.toTag, h.at, h.at + h.len)
  }

  ghost predicate Writable(m: Reply) {
    forall i :: 0 <= i < |m.headers| ==> Copyable(m.headers[i], m)
  }

  // ----- What is written

  function CodeText(code: nat): string {
    [Digit(code / 100 % 10), Digit(code / 10 % 10), Digit(code % 10)]
  }

  /** A stretch of the message; under Wellformed and Writable it always is one. */
  function Part(m: Reply, from: int, to: int): string {
    if 0 <= from <= to <= |m.message| then m.message[from..to] else ""
  }

  function ViaText(h: Header, m: Reply): string {
    if !h.via1 then Part(m, h.at, h.upTo)
    else PortText(h, m) + (if m.received.Some? then m.received.value else "")
  }

  /** The first Via with its rport parameter. */
  function PortText(h: Header, m: Reply): string {
    if !UsesRport(m) then Part(m, h.at, h.upTo)
    else if m.rport.Some? then
      Part(m, h.at, m.rport.value.start - 1) + m.rportText + Part(m, m.rport.value.start + m.rport.value.size, h.upTo)
    else Part(m, h.at, h.upTo) + m.rportText
  }

  function ToText(h: Header, m: Reply): string {
    var tag := m.toTag;
    if m.newTag == "" then Part(m, h.at, h.at + h.len)
    else if tag.at.Some? then
      Part(m, h.at, tag.at.value) + m.newTag + Part(m, tag.at.value + tag.len, h.at + h.len)
    else Part(m, h.at, h.upTo) + TOTAG_TOKEN + m.newTag + Part(m, h.upTo, h.at + h.len)
  }

  function HeaderText(h: Header, m: Reply): string {
    match h.kind
    case ToHdr => ToText(h, m)
    case ViaHdr => ViaText(h, m) + CRLF
    case RecordRouteHdr => if m.code < 180 || m.code >= 300 then "" else Part(m, h.at, h.at + h.len)
    case FromHdr | CallIdHdr | CSeqHdr => Part(m, h.at, h.at + h.len)
    case OtherHdr => ""
  }

  ghost predicate AllCopyable(hs: seq<Header>, m: Reply) {
    forall i :: 0 <= i < |hs| ==> Parsed(hs[i], m) && Copyable(hs[i], m)
  }

  function Texts(hs: seq<Header>, m: Reply): (r: seq<string>)
    ensures |r| == |hs|
  {
    seq(|hs|, i requires 0 <= i < |hs| => HeaderText(hs[i], m))
  }

  function Concat(ts: seq<string>): string
    decreases |ts|
  {
    if ts == [] then "" else Concat(ts[..|ts| - 1]) + ts[|ts| - 1]
  }

  function HeadersText(hs: seq<Header>, m: Reply): string {
    Concat(Texts(hs, m))
  }

  /** The bookmark: where the To tag stands in a text, and how long it is. */
  datatype Mark = Mark(at: int, len: nat)

  function ToMark(h: Header, m: Reply): Mark {
    var tag := m.toTag;
    if m.newTag != "" then
      (if tag.at.Some? then Mark(tag.at.value - h.at, |m.newTag|) else Mark(h.upTo - h.at + |TOTAG_TOKEN|, |m.newTag|))
    else if h.tag.at.Some? then Mark(h.tag.at.value - h.at, h.tag.len)
    else Mark(h.upTo - h.at, 0)
  }

  function Shift(k: Mark, n: nat): Mark { Mark(k.at + n, k.len) }

  function Marks(hs: seq<Header>, m: Reply): (r: seq<Option<Mark>>)
    ensures |r| == |hs|
  {
    seq(|hs|, i requires 0 <= i < |hs| => if hs[i].kind == ToHdr then Some(ToMark(hs[i], m)) else None)
  }

  /** The bookmark is the last one set; each is counted from the beginning of its text. */
  function LastMark(ts: seq<string>, ks: seq<Option<Mark>>): Option<Mark>
    requires |ts| == |ks|
    decreases |ts|
  {
    if ts == [] then None
    else
      var n := |ts| - 1;
      if ks[n].Some? then Some(Shift(ks[n].value, |Concat(ts[..n])|)) else LastMark(ts[..n], ks[..n])
  }

  function LumpsText(l: seq<ReplyLump>): string
    decreases |l|
  {
    if l == [] then "" else LumpsText(l[..|l| - 1]) + if l[|l| - 1].hdr then l[|l| - 1].text else ""
  }

  /** The body: of the last body lump. */
  function BodyText(l: seq<ReplyLump>): Option<string>
    decreases |l|
  {
    if l == [] then None else if l[|l| - 1].body then Some(l[|l| - 1].text) else BodyText(l[..|l| - 1])
  }

  function Line(t: Option<string>): string {
    if t.Some? then t.value + CRLF else ""
  }

  function BodyLen(body: Option<string>): nat { if body.Some? then |body.value| else 0 }

  function FirstLine(m: Reply): string {
    m.version + " " + CodeText(m.code) + " " + m.reason + CRLF
  }

  function Rest(m: Reply): string {
    Line(m.server) + (CONTENT_LENGTH + Digits(BodyLen(BodyText(m.lumps))) + CRLF) + Line(m.warning) + CRLF
    + (if BodyText(m.lumps).Some? then BodyText(m.lumps).value else "")
  }

  function ReplyText(m: Reply): string
    requires Wellformed(m) && Writable(m)
  {
    FirstLine(m) + HeadersText(m.headers, m) + LumpsText(m.lumps) + Rest(m)
  }

  // ----- What is counted

  /** What the length pass adds for a header. */
  function HeaderLen(h: Header, m: Reply): int {
    match h.kind
    case ToHdr =>
      h.len + (if m.newTag == "" then 0
               else if m.toTag.len != 0 then |m.newTag| - m.toTag.len
               else |m.newTag| + |TOTAG_TOKEN|)
    case ViaHdr =>
      h.upTo - h.at + |CRLF|
      + (if h.via1
         then (if m.received.Some? then |m.received.value| else 0) + (if UsesRport(m) then |m.rportText| else 0)
         else 0)
    case RecordRouteHdr => if m.code < 180 || m.code >= 300 then 0 else h.len
    case FromHdr | CallIdHdr | CSeqHdr => h.len
    case OtherHdr => 0
  }

  function HeadersLen(hs: seq<Header>, m: Reply): int
    decreases |hs|
  {
    if hs == [] then 0 else HeadersLen(hs[..|hs| - 1], m) + HeaderLen(hs[|hs| - 1], m)
  }

  function LumpsLen(l: seq<ReplyLump>): nat
    decreases |l|
  {
    if l == [] then 0 else LumpsLen(l[..|l| - 1]) + |l[|l| - 1].text|
  }

  /** The old rport parameter goes, with the semicolon before it. */
  function RportRemoved(m: Reply): nat {
    if UsesRport(m) && m.rport.Some? then m.rport.value.size + 1 else 0
  }

  /** The tag pointer is set although the tag is empty. */
  predicate EmptyTag(t: Tag) {
    t.at.Some? && t.len == 0
  }

  /** What the length pass counts for one header and the writing pass does not write. */
  function Extra(h: Header, m: Reply): nat {
    (if h.via1 then RportRemoved(m) else 0)
    + (if h.kind == ToHdr && EmptyTag(m.toTag) && m.newTag != "" then |TOTAG_TOKEN| else 0)
  }

  function Extras(hs: seq<Header>, m: Reply): nat
    decreases |hs|
  {
    if hs == [] then 0 else Extras(hs[..|hs| - 1], m) + Extra(hs[|hs| - 1], m)
  }

  lemma HeaderCounted(h: Header, m: Reply)
    requires Parsed(h, m) && Copyable(h, m)
    ensures HeaderLen(h, m) == |HeaderText(h, m)| + Extra(h, m)
  {
  }

  lemma {:induction false} HeadersCounted(hs: seq<Header>, m: Reply)
    requires AllCopyable(hs, m)
    ensures HeadersLen(hs, m) == |HeadersText(hs, m)| + Extras(hs, m)
    decreases |hs|
  {
    if hs != [] {
      var init, last := hs[..|hs| - 1], hs[|hs| - 1];
      HeadersCounted(init, m);
      HeaderCounted(last, m);
      assert Texts(hs, m)[..|hs| - 1] == Texts(init, m) && Texts(hs, m)[|hs| - 1] == HeaderText(last, m);
    }
  }

  lemma {:induction false} ExtrasAre(hs: seq<Header>, m: Reply)
    ensures Extras(hs, m) == CountVia1(hs) * RportRemoved(m)
                             + CountTo(hs) * (if m.newTag != "" && EmptyTag(m.toTag) then |TOTAG_TOKEN| else 0)
    decreases |hs|
  {
    if hs != [] {
      var init := hs[..|hs| - 1];
      ExtrasAre(init, m);
      OneMore(CountVia1(init), RportRemoved(m));
      OneMore(CountTo(init), if m.newTag != "" && EmptyTag(m.toTag) then |TOTAG_TOKEN| else 0);
    }
  }

  lemma OneMore(n: nat, k: nat)
    ensures (n + 1) * k == n * k + k
  {
  }

  lemma {:induction false} LumpsCounted(l: seq<ReplyLump>)
    requires LumpsOk(l)
    ensures LumpsLen(l) == |LumpsText(l)| + BodyLen(BodyText(l))
    decreases |l|
  {
    if l != [] {
      var init := l[..|l| - 1];
      LumpsCounted(init);
      if l[|l| - 1].body {
        assert forall i :: 0 <= i < |init| ==> init[i] == l[i];
        NoBody(init);
      }
    }
  }

  lemma {:induction false} NoBody(l: seq<ReplyLump>)
    requires forall i :: 0 <= i < |l| ==> !l[i].body
    ensures BodyText(l) == None
    decreases |l|
  {
    if l != [] { NoBody(l[..|l| - 1]); }
  }

  lemma {:induction false} BodyIsLump(l: seq<ReplyLump>)
    ensures BodyText(l).Some? ==> exists i :: 0 <= i < |l| && l[i].text == BodyText(l).value
    decreases |l|
  {
    if l != [] {
      if l[|l| - 1].body {
        assert l[|l| - 1].text == BodyText(l).value;
      } else {
        var init := l[..|l| - 1];
        BodyIsLump(init);
        if BodyText(l).Some? {
          var i :| 0 <= i < |init| && init[i].text == BodyText(l).value;
          assert l[i] == init[i];
        }
      }
    }
  }

  /** The length pass of build_res_buf_from_sip_req. */
  function ReplyLen(m: Reply): int {
    (|m.version| + 1 + 3 + 1 + |m.reason| + |CRLF|) + (HeadersLen(m.headers, m) - RportRemoved(m)) + LumpsLen(m.lumps)
    + |Line(m.server)| + (|CONTENT_LENGTH| + |Digits(BodyLen(BodyText(m.lumps)))| + |CRLF|) + |Line(m.warning)| + |CRLF|
  }

  // ----- Which To header a tag belongs to

  lemma {:induction false} ToTagAt(hs: seq<Header>) returns (i: nat)
    requires ToTag(hs).at.Some?
    ensures i < |hs| && hs[i].kind == ToHdr && hs[i].tag == ToTag(hs)
  {
    if hs[0].kind == ToHdr {
      i := 0;
    } else {
      i := ToTagAt(hs[1..]);
      i := i + 1;
    }
  }

  lemma {:induction false} CountedOnce(hs: seq<Header>, i: nat)
    requires i < |hs| && hs[i].kind == ToHdr
    ensures CountTo(hs) >= 1
    ensures CountTo(hs) == 1 <==> forall j :: 0 <= j < |hs| && hs[j].kind == ToHdr ==> j == i
    decreases |hs|
  {
    var init, last := hs[..|hs| - 1], |hs| - 1;
    if i < last {
      CountedOnce(init, i);
      if CountTo(init) == 1 && hs[last].kind != ToHdr {
        assert forall j :: 0 <= j < last ==> hs[j] == init[j];
      } else if CountTo(init) != 1 {
        var j :| 0 <= j < |init| && init[j].kind == ToHdr && j != i;
        assert hs[j].kind == ToHdr;
      }
    } else {
      NoneCounted(init);
      assert forall j :: 0 <= j < last ==> hs[j] == init[j];
    }
  }

  lemma {:induction false} NoneCounted(hs: seq<Header>)
    ensures CountTo(hs) == 0 <==> forall j :: 0 <= j < |hs| ==> hs[j].kind != ToHdr
    decreases |hs|
  {
    if hs != [] {
      var init := hs[..|hs| - 1];
      NoneCounted(init);
      assert forall j :: 0 <= j < |init| ==> hs[j] == init[j];
    }
  }

  /** The copies of the writing pass have no negative length exactly when no tag is replaced
      or there is a single To header: in a second one the tag of the first lies before it. */
  lemma WritableIff(m: Reply)
    requires Wellformed(m)
    ensures Writable(m) <==> m.newTag == "" || m.toTag.at.None? || CountTo(m.headers) == 1
  {
    var tag := m.toTag;
    if m.newTag != "" && tag.at.Some? {
      var i := ToTagAt(m.headers);
      CountedOnce(m.headers, i);
      assert Parsed(m.headers[i], m);
      forall j | 0 <= j < |m.headers| && m.headers[j].kind == ToHdr && j != i ensures !Copyable(m.headers[j], m) {
        assert Parsed(m.headers[j], m);
        if j < i {
          assert m.headers[j].at + m.headers[j].len <= m.headers[i].at;
        } else {
          assert m.headers[i].at + m.headers[i].len <= m.headers[j].at;
        }
      }
      if CountTo(m.headers) == 1 {
        assert Copyable(m.headers[i], m);
        forall j | 0 <= j < |m.headers| ensures Copyable(m.headers[j], m) {
          if m.headers[j].kind == ToHdr { assert j == i; }
        }
      }
    } else if m.newTag != "" {
      NoTagNoLength(m.headers, m);
      forall j | 0 <= j < |m.headers| ensures Copyable(m.headers[j], m) {}
    }
  }

  lemma {:induction false} NoTagNoLength(hs: seq<Header>, m: Reply)
    requires forall i :: 0 <= i < |hs| ==> Parsed(hs[i], m)
    ensures ToTag(hs).at.None? ==> ToTag(hs).len == 0
  {
    if hs != [] {
      assert Parsed(hs[0], m);
      NoTagNoLength(hs[1..], m);
    }
  }

  /** Where the writing is defined, the length pass counts what is written, and the tag token
      besides when a new tag takes the place of an empty one whose pointer is set. */
  lemma CountedExactly(m: Reply)
    requires Wellformed(m) && Writable(m)
    ensures ReplyLen(m) == |ReplyText(m)| + if m.newTag != "" && EmptyTag(m.toTag) then |TOTAG_TOKEN| else 0
  {
    HeadersCounted(m.headers, m);
    ExtrasOnce(m);
    LumpsCounted(m.lumps);
    LengthOfParts(FirstLine(m), HeadersText(m.headers, m), LumpsText(m.lumps), Rest(m));
    FirstLineLength(m);
    RestLength(m);
  }

  lemma ExtrasOnce(m: Reply)
    requires Wellformed(m) && Writable(m)
    ensures Extras(m.headers, m)
         == RportRemoved(m) + if m.newTag != "" && EmptyTag(m.toTag) then |TOTAG_TOKEN| else 0
  {
    WritableIff(m);
    ExtrasAre(m.headers, m);
  }

  lemma LengthOfParts(a: string, b: string, c: string, d: string)
    ensures |a + b + c + d| == |a| + |b| + |c| + |d|
  {
  }

  lemma FirstLineLength(m: Reply)
    ensures |FirstLine(m)| == |m.version| + 1 + 3 + 1 + |m.reason| + |CRLF|
  {
  }

  lemma RestLength(m: Reply)
    ensures |Rest(m)| == |Line(m.server)| + (|CONTENT_LENGTH| + |Digits(BodyLen(BodyText(m.lumps)))| + |CRLF|)
                         + |Line(m.warning)| + |CRLF| + BodyLen(BodyText(m.lumps))
  {
  }

  /** So the reply is written, and as long as counted, exactly when no new tag is given, or
      the first To header has no tag, or it has one that is not empty and is the only To header. */
  lemma PassesAgreeIff(m: Reply)
    requires Wellformed(m)
    ensures Writable(m) && ReplyLen(m) == |ReplyText(m)|
       <==> m.newTag == "" || m.toTag.at.None? || (m.toTag.len != 0 && CountTo(m.headers) == 1)
  {
    WritableIff(m);
    if Writable(m) { CountedExactly(m); }
  }

  const VIA_ONLY := Header(ViaHdr, 0, 7, 5, true, Tag(None, 0))

  function Small(message: string, headers: seq<Header>): Reply {
    Reply(message, "SIP/2.0", 200, "OK", "n", ToTag(headers), headers, None, false, [], "", None, None, None)
  }

  /** A tag that is empty although its pointer is set: the length pass counts five
      characters that are never written. */
  lemma EmptyTagMiscounts()
    ensures var m := Small("Via:v\r\nTo:a;tag=\r\n", [VIA_ONLY, Header(ToHdr, 7, 11, 16, false, Tag(Some(16), 0))]);
            Wellformed(m) && Writable(m) && ReplyLen(m) == |ReplyText(m)| + 5
  {
    var hs := [VIA_ONLY, Header(ToHdr, 7, 11, 16, false, Tag(Some(16), 0))];
    var m := Small("Via:v\r\nTo:a;tag=\r\n", hs);
    CountTwo(hs);
    assert hs[1..][0] == hs[1] && ToTag(hs) == ToTag(hs[1..]);
    assert Wellformed(m);
    WritableIff(m);
    CountedExactly(m);
  }

  /** Two To headers, the first with a tag: in the second one the copy up to the tag of the
      first would have length 16 - 19. */
  lemma SecondToUnwritable()
    ensures var m := Small("Via:v\r\nTo:a;tag=x\r\nTo:b;tag=yy\r\n",
                           [VIA_ONLY, Header(ToHdr, 7, 12, 17, false, Tag(Some(16), 1)),
                            Header(ToHdr, 19, 13, 30, false, Tag(Some(28), 2))]);
            Wellformed(m) && !Writable(m) && m.toTag == Tag(Some(16), 1)
  {
    var hs := [VIA_ONLY, Header(ToHdr, 7, 12, 17, false, Tag(Some(16), 1)),
               Header(ToHdr, 19, 13, 30, false, Tag(Some(28), 2))];
    var m := Small("Via:v\r\nTo:a;tag=x\r\nTo:b;tag=yy\r\n", hs);
    assert hs[..2] == [hs[0], hs[1]] && CountVia1(hs) == CountVia1(hs[..2]);
    CountTwo(hs[..2]);
    assert hs[1..][0] == hs[1] && ToTag(hs) == ToTag(hs[1..]);
    assert !Copyable(hs[2], m);
  }

  lemma CountTwo(hs: seq<Header>)
    requires |hs| == 2
    ensures CountVia1(hs) == (if hs[0].via1 then 1 else 0) + (if hs[1].via1 then 1 else 0)
    ensures CountTo(hs) == (if hs[0].kind == ToHdr then 1 else 0) + (if hs[1].kind == ToHdr then 1 else 0)
  {
    assert hs[..1] == [hs[0]] && hs[..1][..0] == [];
    assert CountVia1(hs) == CountVia1(hs[..1]) + (if hs[1].via1 then 1 else 0);
    assert CountTo(hs) == CountTo(hs[..1]) + (if hs[1].kind == ToHdr then 1 else 0);
  }

  // ----- The bookmark

  /** What the bookmark of a To header should show: the new tag, or else the tag it has. */
  function Shown(h: Header, m: Reply): string {
    if m.newTag != "" then m.newTag
    else if h.tag.at.Some? then Part(m, h.tag.at.value, h.tag.at.value + h.tag.len) else ""
  }

  /** The last To header. */
  function LastTo(hs: seq<Header>): Option<Header>
    decreases |hs|
  {
    if hs == [] then None
    else if hs[|hs| - 1].kind == ToHdr then Some(hs[|hs| - 1]) else LastTo(hs[..|hs| - 1])
  }

  predicate Shows(t: string, k: Mark, shown: string) {
    0 <= k.at <= k.at + k.len <= |t| && t[k.at..k.at + k.len] == shown
  }

  lemma ToMarkShows(h: Header, m: Reply)
    requires Parsed(h, m) && h.kind == ToHdr && Copyable(h, m)
    ensures Shows(ToText(h, m), ToMark(h, m), Shown(h, m))
  {
    if m.newTag != "" {
      var tag := m.toTag;
      if tag.at.Some? {
        ShowsMiddle(Part(m, h.at, tag.at.value), m.newTag, Part(m, tag.at.value + tag.len, h.at + h.len));
      } else {
        ShowsMiddle(Part(m, h.at, h.upTo) + TOTAG_TOKEN, m.newTag, Part(m, h.upTo, h.at + h.len));
      }
    } else if h.tag.at.Some? {
      ShowsPart(m, h.at, h.at + h.len, h.tag.at.value, h.tag.len);
    } else {
      ShowsPart(m, h.at, h.at + h.len, h.upTo, 0);
    }
  }

  lemma ShowsPart(m: Reply, from: nat, to: nat, at: nat, len: nat)
    requires from <= at && at + len <= to <= |m.message|
    ensures Shows(Part(m, from, to), Mark(at - from, len), Part(m, at, at + len))
  {
    assert m.message[from..to][at - from..at - from + len] == m.message[at..at + len];
  }

  lemma ShowsMiddle(a: string, b: string, c: string)
    ensures Shows(a + b + c, Mark(|a|, |b|), b)
  {
  }

  lemma ShowsBehind(a: string, t: string, k: Mark, shown: string)
    requires Shows(t, k, shown)
    ensures Shows(a + t, Shift(k, |a|), shown)
  {
    assert (a + t)[|a| + k.at..|a| + k.at + k.len] == t[k.at..k.at + k.len];
  }

  lemma ShowsBefore(t: string, b: string, k: Mark, shown: string)
    requires Shows(t, k, shown)
    ensures Shows(t + b, k, shown)
  {
    assert (t + b)[k.at..k.at + k.len] == t[k.at..k.at + k.len];
  }

  /** One header more. */
  lemma LastMarkNext(hs: seq<Header>, m: Reply)
    requires hs != []
    ensures var init, last := hs[..|hs| - 1], hs[|hs| - 1];
            HeadersText(hs, m) == HeadersText(init, m) + HeaderText(last, m)
            && LastMark(Texts(hs, m), Marks(hs, m))
               == if last.kind == ToHdr then Some(Shift(ToMark(last, m), |HeadersText(init, m)|))
                  else LastMark(Texts(init, m), Marks(init, m))
  {
    var n := |hs| - 1;
    assert Texts(hs, m)[..n] == Texts(hs[..n], m) && Marks(hs, m)[..n] == Marks(hs[..n], m);
  }

  lemma {:induction false} LastMarkShows(hs: seq<Header>, m: Reply)
    requires AllCopyable(hs, m)
    ensures var k := LastMark(Texts(hs, m), Marks(hs, m));
            (k.Some? <==> LastTo(hs).Some?)
                && (k.Some? ==> Shows(HeadersText(hs, m), k.value, Shown(LastTo(hs).value, m)))
    decreases |hs|
  {
    if hs != [] {
      var init, last := hs[..|hs| - 1], hs[|hs| - 1];
      LastMarkNext(hs, m);
      if last.kind == ToHdr {
        ToMarkShows(last, m);
        ShowsBehind(HeadersText(init, m), ToText(last, m), ToMark(last, m), Shown(last, m));
      } else {
        LastMarkShows(init, m);
        var k := LastMark(Texts(init, m), Marks(init, m));
        if k.Some? { ShowsBefore(HeadersText(init, m), HeaderText(last, m), k.value, Shown(LastTo(init).value, m)); }
      }
    }
  }

  function Shifted(k: Option<Mark>, n: nat): Option<Mark> {
    match k case None => None case Some(mark) => Some(Shift(mark, n))
  }

  function ReplyMark(m: Reply): Option<Mark> {
    Shifted(LastMark(Texts(m.headers, m), Marks(m.headers, m)), |FirstLine(m)|)
  }

  /** In the reply the bookmark shows the new tag, or without one the tag that was there. */
  lemma MarkShowsTag(m: Reply)
    requires Wellformed(m) && Writable(m)
    ensures ReplyMark(m).Some? <==> LastTo(m.headers).Some?
    ensures ReplyMark(m).Some? ==> Shows(ReplyText(m), ReplyMark(m).value, Shown(LastTo(m.headers).value, m))
  {
    LastMarkShows(m.headers, m);
    var k := LastMark(Texts(m.headers, m), Marks(m.headers, m));
    if k.Some? {
      var first, hs, shown := FirstLine(m), HeadersText(m.headers, m), Shown(LastTo(m.headers).value, m);
      ShowsBehind(first, hs, k.value, shown);
      ShowsBefore(first + hs, LumpsText(m.lumps), Shift(k.value, |first|), shown);
      ShowsBefore(first + hs + LumpsText(m.lumps), Rest(m), Shift(k.value, |first|), shown);
    }
  }

  // ----- The two passes

  /** The header loop of the length pass. */
  method MeasureHeaders(m: Reply) returns (len: int)
    ensures len == HeadersLen(m.headers, m) - RportRemoved(m)
  {
    len := 0;
    if UsesRport(m) && m.rport.Some? { len := len - (m.rport.value.size + 1); }
    var i := 0;
    while i < |m.headers|
      invariant 0 <= i <= |m.headers| && len == HeadersLen(m.headers[..i], m) - RportRemoved(m)
    {
      assert m.headers[..i + 1][..i] == m.headers[..i];
      var h := m.headers[i];
      match h.kind {
        case ToHdr =>
          if |m.newTag| > 0 {
            var tag := m.toTag;
            len := len + if tag.len != 0 then |m.newTag| - tag.len else |m.newTag| + |TOTAG_TOKEN|;
          }
          len := len + h.len;
        case ViaHdr =>
          len := len + (h.upTo - h.at) + |CRLF|;
          if h.via1 {
            if m.received.Some? { len := len + |m.received.value|; }
            if UsesRport(m) { len := len + |m.rportText|; }
          }
        case RecordRouteHdr =>
          if !(m.code < 180 || m.code >= 300) { len := len + h.len; }
        case FromHdr | CallIdHdr | CSeqHdr => len := len + h.len;
        case OtherHdr =>
      }
      i := i + 1;
    }
    assert m.headers[..i] == m.headers;
  }

  /** The lump loop of the length pass, which also finds the body. */
  method MeasureLumps(l: seq<ReplyLump>) returns (len: nat, body: Option<string>)
    ensures len == LumpsLen(l) && body == BodyText(l)
  {
    len, body := 0, None;
    var i := 0;
    while i < |l|
      invariant 0 <= i <= |l| && len == LumpsLen(l[..i]) && body == BodyText(l[..i])
    {
      assert l[..i + 1][..i] == l[..i];
      len := len + |l[i].text|;
      if l[i].body { body := Some(l[i].text); }
      i := i + 1;
    }
    assert l[..i] == l;
  }

  /** One header of the writing pass; a To header sets the bookmark. */
  method WriteHeader(buf: array<char>, p: nat, h: Header, m: Reply) returns (next: nat, mark: Option<Mark>)
    requires Parsed(h, m) && Copyable(h, m) && p + |HeaderText(h, m)| <= buf.Length
    modifies buf
    ensures next == p + |HeaderText(h, m)| && buf[..next] == old(buf[..p]) + HeaderText(h, m)
    ensures mark == if h.kind == ToHdr then Some(Shift(ToMark(h, m), p)) else None
  {
    next, mark := p, None;
    match h.kind {
      case ViaHdr =>
        next := WriteVia(buf, p, h, m);
        ghost var via := ViaText(h, m);
        next := Copy(buf, next, CRLF);
        Assoc(old(buf[..p]), via, CRLF);
      case ToHdr =>
        var k;
        next, k := WriteTo(buf, p, h, m);
        mark := Some(k);
      case RecordRouteHdr =>
        if !(m.code < 180 || m.code >= 300) { next := Copy(buf, next, m.message[h.at..h.at + h.len]); }
      case FromHdr | CallIdHdr | CSeqHdr => next := Copy(buf, next, m.message[h.at..h.at + h.len]);
      case OtherHdr =>
    }
  }

  method WriteVia(buf: array<char>, p: nat, h: Header, m: Reply) returns (next: nat)
    requires Parsed(h, m) && p + |ViaText(h, m)| <= buf.Length
    modifies buf
    ensures next == p + |ViaText(h, m)| && buf[..next] == old(buf[..p]) + ViaText(h, m)
  {
    if h.via1 {
      next := WritePort(buf, p, h, m);
      if m.received.Some? {
        Assoc(old(buf[..p]), PortText(h, m), m.received.value);
        next := Copy(buf, next, m.received.value);
      }
    } else {
      next := Copy(buf, p, m.message[h.at..h.upTo]);
    }
  }

  method WritePort(buf: array<char>, p: nat, h: Header, m: Reply) returns (next: nat)
    requires Parsed(h, m) && h.via1 && p + |PortText(h, m)| <= buf.Length
    modifies buf
    ensures next == p + |PortText(h, m)| && buf[..next] == old(buf[..p]) + PortText(h, m)
  {
    if !UsesRport(m) {
      next := Copy(buf, p, m.message[h.at..h.upTo]);
    } else if m.rport.Some? {
      var s, e := m.rport.value.start, m.rport.value.start + m.rport.value.size;
      next := Copy3(buf, p, m.message[h.at..s - 1], m.rportText, m.message[e..h.upTo]);
    } else {
      next := Copy(buf, p, m.message[h.at..h.upTo]);
      next := Copy(buf, next, m.rportText);
      Assoc(old(buf[..p]), m.message[h.at..h.upTo], m.rportText);
    }
  }

  method WriteTo(buf: array<char>, p: nat, h: Header, m: Reply) returns (next: nat, mark: Mark)
    requires Parsed(h, m) && h.kind == ToHdr && Copyable(h, m) && p + |ToText(h, m)| <= buf.Length
    modifies buf
    ensures next == p + |ToText(h, m)| && buf[..next] == old(buf[..p]) + ToText(h, m)
    ensures mark == Shift(ToMark(h, m), p)
  {
    var end := h.at + h.len;
    if |m.newTag| > 0 {
      var tag := m.toTag;
      if tag.at.Some? {
        var t, e := tag.at.value, tag.at.value + tag.len;
        mark := Mark(p + (t - h.at), |m.newTag|);
        next := Copy3(buf, p, m.message[h.at..t], m.newTag, m.message[e..end]);
      } else {
        mark := Mark(p + (h.upTo - h.at) + |TOTAG_TOKEN|, |m.newTag|);
        next := Copy3(buf, p, m.message[h.at..h.upTo], TOTAG_TOKEN, m.newTag);
        Assoc(old(buf[..p]), m.message[h.at..h.upTo] + TOTAG_TOKEN + m.newTag, m.message[h.upTo..end]);
        next := Copy(buf, next, m.message[h.upTo..end]);
      }
    } else {
      mark := if h.tag.at.Some? then Mark(p + (h.tag.at.value - h.at), h.tag.len) else Mark(p + (h.upTo - h.at), 0);
      next := Copy(buf, p, m.message[h.at..end]);
    }
  }

  lemma {:induction false} ConcatFits(ts: seq<string>, k: nat)
    requires k <= |ts|
    ensures |Concat(ts[..k])| <= |Concat(ts)|
    decreases |ts|
  {
    if k < |ts| {
      ConcatFits(ts[..|ts| - 1], k);
      assert ts[..|ts| - 1][..k] == ts[..k];
    } else {
      assert ts[..k] == ts;
    }
  }

  lemma {:induction false} LumpsFit(l: seq<ReplyLump>, k: nat)
    requires k <= |l|
    ensures |LumpsText(l[..k])| <= |LumpsText(l)|
    decreases |l|
  {
    if k < |l| {
      LumpsFit(l[..|l| - 1], k);
      assert l[..|l| - 1][..k] == l[..k];
    } else {
      assert l[..k] == l;
    }
  }

  /** The first `i` texts are written from `p` on, with this bookmark. */
  ghost predicate Written(ts: seq<string>, ks: seq<Option<Mark>>, i: nat, p: nat, text: string, mark: Option<Mark>) {
    i <= |ts| == |ks| && text == Concat(ts[..i]) && |text| <= |Concat(ts)|
    && mark == Shifted(LastMark(ts[..i], ks[..i]), p)
  }

  lemma WrittenNext(ts: seq<string>, ks: seq<Option<Mark>>, i: nat, p: nat, text: string, mark: Option<Mark>)
    requires i < |ts| && Written(ts, ks, i, p, text, mark)
    ensures Written(ts, ks, i + 1, p, text + ts[i], if ks[i].Some? then Some(Shift(ks[i].value, p + |text|)) else mark)
  {
    assert ts[..i + 1][..i] == ts[..i] && ks[..i + 1][..i] == ks[..i];
    ConcatFits(ts, i + 1);
  }

  method WriteHeaders(buf: array<char>, p: nat, m: Reply) returns (next: nat, mark: Option<Mark>)
    requires AllCopyable(m.headers, m) && p + |HeadersText(m.headers, m)| <= buf.Length
    modifies buf
    ensures next == p + |HeadersText(m.headers, m)| && buf[..next] == old(buf[..p]) + HeadersText(m.headers, m)
    ensures mark == Shifted(LastMark(Texts(m.headers, m), Marks(m.headers, m)), p)
  {
    next, mark := p, None;
    ghost var before, text := buf[..p], "";
    ghost var ts, ks := Texts(m.headers, m), Marks(m.headers, m);
    var i := 0;
    while i < |m.headers|
      invariant 0 <= i <= |m.headers| && next == p + |text| <= buf.Length
      invariant buf[..next] == before + text && Written(ts, ks, i, p, text, mark)
    {
      WrittenNext(ts, ks, i, p, text, mark);
      var here;
      next, here := WriteHeader(buf, next, m.headers[i], m);
      Assoc(before, text, ts[i]);
      text := text + ts[i];
      if here.Some? { mark := here; }
      i := i + 1;
    }
    assert ts[..i] == ts && ks[..i] == ks;
  }

  method WriteLumps(buf: array<char>, p: nat, l: seq<ReplyLump>) returns (next: nat)
    requires p + |LumpsText(l)| <= buf.Length
    modifies buf
    ensures next == p + |LumpsText(l)| && buf[..next] == old(buf[..p]) + LumpsText(l)
  {
    next := p;
    ghost var before := buf[..p];
    var i := 0;
    while i < |l|
      invariant 0 <= i <= |l| && next == p + |LumpsText(l[..i])| <= buf.Length
                && buf[..next] == before + LumpsText(l[..i])
    {
      assert l[..i + 1][..i] == l[..i];
      LumpsFit(l, i + 1);
      if l[i].hdr {
        Assoc(before, LumpsText(l[..i]), l[i].text);
        next := Copy(buf, next, l[i].text);
      }
      i := i + 1;
    }
    assert l[..i] == l;
  }

  method WriteLine(buf: array<char>, p: nat, t: Option<string>) returns (next: nat)
    requires p + |Line(t)| <= buf.Length
    modifies buf
    ensures next == p + |Line(t)| && buf[..next] == old(buf[..p]) + Line(t)
  {
    next := p;
    if t.Some? {
      next := Copy(buf, next, t.value);
      next := Copy(buf, next, CRLF);
      Assoc(old(buf[..p]), t.value, CRLF);
    }
  }

  /** The three digits, written from the last to the first. */
  method WriteCode(buf: array<char>, p: nat, code: nat)
    requires p + 3 <= buf.Length
    modifies buf
    ensures buf[..p + 3] == old(buf[..p]) + CodeText(code)
  {
    var foo, i := code, 2;
    while i >= 0
      invariant -1 <= i <= 2
      invariant foo == if i == 2 then code else if i == 1 then code / 10 else if i == 0 then code / 10 / 10
                else code / 10 / 10 / 10
      invariant forall k :: 0 <= k < p ==> buf[k] == old(buf[k])
      invariant i < 2 ==> buf[p + 2] == Digit(code % 10)
      invariant i < 1 ==> buf[p + 1] == Digit(code / 10 % 10)
      invariant i < 0 ==> buf[p] == Digit(code / 10 / 10 % 10)
    {
      buf[p + i] := Digit(foo - foo / 10 * 10);
      foo := foo / 10;
      i := i - 1;
    }
    assert code / 10 / 10 == code / 100;
  }

  method WriteFirstLine(buf: array<char>, m: Reply) returns (next: nat)
    requires |FirstLine(m)| <= buf.Length
    modifies buf
    ensures next == |FirstLine(m)| && buf[..next] == FirstLine(m)
  {
    next := Copy(buf, 0, m.version);
    next := Copy(buf, next, " ");
    WriteCode(buf, next, m.code);
    next := next + 3;
    next := Copy3(buf, next, " ", m.reason, CRLF);
    Assoc4(m.version + " " + CodeText(m.code), " ", m.reason, CRLF);
  }

  method WriteRest(buf: array<char>, p: nat, m: Reply, body: Option<string>) returns (next: nat)
    requires body == BodyText(m.lumps) && BodyLen(body) < 0x8000_0000 && p + |Rest(m)| <= buf.Length
    modifies buf
    ensures next == p + |Rest(m)| && buf[..next] == old(buf[..p]) + Rest(m)
  {
    ghost var before := buf[..p];
    next := WriteLine(buf, p, m.server);
    ghost var a := Line(m.server);
    var number := "0";
    if body.Some? { number := Int2Str(|body.value|); }
    var clen := CONTENT_LENGTH + number + CRLF;
    next := Copy(buf, next, clen);
    Assoc(before, a, clen);
    next := WriteLine(buf, next, m.warning);
    Assoc(before, a + clen, Line(m.warning));
    next := Copy(buf, next, CRLF);
    Assoc(before, a + clen + Line(m.warning), CRLF);
    if body.Some? {
      next := Copy(buf, next, body.value);
      Assoc(before, a + clen + Line(m.warning) + CRLF, body.value);
    }
  }

  /** The length pass of build_res_buf_from_sip_req, which also finds the body. */
  method MeasureReply(m: Reply) returns (len: int, body: Option<string>)
    requires BodyLen(BodyText(m.lumps)) < 0x8000_0000
    ensures len == ReplyLen(m) && body == BodyText(m.lumps)
  {
    var hlen := MeasureHeaders(m);
    var llen;
    llen, body := MeasureLumps(m.lumps);
    var number := "0";
    if body.Some? { number := Int2Str(|body.value|); }
    len := |m.version| + 1 + 3 + 1 + |m.reason| + |CRLF| + hlen + llen + (|CONTENT_LENGTH| + |number| + |CRLF|)
        + |CRLF|;
    if m.server.Some? { len := len + |m.server.value| + |CRLF|; }
    if m.warning.Some? { len := len + |m.warning.value| + |CRLF|; }
  }

  /** Its writing pass. */
  method WriteReply(m: Reply, body: Option<string>, buf: array<char>) returns (p: nat, mark: Option<Mark>)
    requires Wellformed(m) && Writable(m) && |ReplyText(m)| <= buf.Length
    requires body == BodyText(m.lumps) && BodyLen(body) < 0x8000_0000
    modifies buf
    ensures p == |ReplyText(m)| && buf[..p] == ReplyText(m) && mark == ReplyMark(m)
  {
    p := WriteFirstLine(buf, m);
    p, mark := WriteHeaders(buf, p, m);
    p := WriteLumps(buf, p, m.lumps);
    p := WriteRest(buf, p, m, body);
  }

  /** build_res_buf_from_sip_req: where no copy has a negative length, the writing never
      leaves the buffer, whatever the length pass has counted. */
  method BuildReply(m: Reply) returns (text: string, returnedLen: nat, mark: Option<Mark>)
    requires Wellformed(m) && (m.newTag == "" || m.toTag.at.None? || CountTo(m.headers) == 1)
    ensures Writable(m) && text == ReplyText(m) && returnedLen == ReplyLen(m)
    ensures mark == ReplyMark(m)
    ensures mark.Some? <==> LastTo(m.headers).Some?
    ensures mark.Some? ==> Shows(text, mark.value, Shown(LastTo(m.headers).value, m))
  {
    WritableIff(m);
    CountedExactly(m);
    MarkShowsTag(m);
    BodyIsLump(m.lumps);
    var len, body := MeasureReply(m);
    var buf := new char[len + 1];
    var p;
    p, mark := WriteReply(m, body, buf);
    text, returnedLen := buf[..p], len;
  }
}
