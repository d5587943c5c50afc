/** A SIP message with its edit lists: queueing edits, adjusting Content-Length
    and building the edited message. */
module SipBuild {
  import opened Options
  import opened LumpTypes
  import opened LumpSpec
  import opened LumpCrossing
  import opened LumpCalls
  import opened LumpEngine
  import opened Buffers
  import opened Decimal
  import opened SipText
  import opened SeqFacts

  // ----- Which edit Content-Length needs

  datatype ClenEdit =
    | NoEdit
    | Announce(unparsed: nat)             // the whole header, in front of the final CRLF
    | Rewrite(offset: nat, len: nat)      // only the number of the header that is there

  /** A header field value: where it starts and how long it is. */
  datatype Field = Field(offset: nat, len: nat)

  function ClenNeeded(proto: Proto, bodyDelta: int, contentLength: Option<Field>, unparsed: nat): ClenEdit {
    if (proto == Tcp || proto == Tls) && contentLength.None? then Announce(unparsed)
    else if bodyDelta == 0 then NoEdit
    else if contentLength.None? then (if proto == Udp then NoEdit else Announce(unparsed))
    else Rewrite(contentLength.value.offset, contentLength.value.len)
  }

  function ClenCall(e: ClenEdit): Call
    requires !e.NoEdit?
  {
    match e
    case Announce(o) => AnchorCall(o)
    case Rewrite(o, n) => DelCall(o, n)
  }

  function ClenLump(e: ClenEdit): Lump
    requires !e.NoEdit?
  {
    match e
    case Announce(o) => Lump(Nop(o), [], [])
    case Rewrite(o, n) => Lump(Del(o, n), [], [])
  }

  /** The text of clen_builder. */
  function ClenText(e: ClenEdit, number: nat): string
    requires !e.NoEdit?
  {
    if e.Rewrite? then Digits(number) else CONTENT_LENGTH + Digits(number) + CRLF
  }

  /** The two calls adjust_clen makes: the anchor or deletion, then the text
      hung behind it. */
  function ClenApplied(st: Lists, e: ClenEdit, number: nat, eoh: Option<nat>, len: nat): Option<Lists>
    requires !e.NoEdit?
  {
    var target := TargetOf(ClenCall(e), eoh);
    var st' := Apply(st, ClenCall(e), eoh, len);
    if st'.None? then None
    else Apply(st'.value, AfterCall(target, SortedIndex(Get(st, target), ClenLump(e)), 0, Text(ClenText(e, number))),
               eoh, len)
  }

  /** `adjusted` is the header list once adjust_clen has announced `number`. */
  predicate ClenDone(hdr: seq<Lump>, body: seq<Lump>, e: ClenEdit, number: nat, eoh: Option<nat>, len: nat,
                     adjusted: seq<Lump>) {
    !e.NoEdit? && ClenApplied(Lists(hdr, body), e, number, eoh, len) == Some(Lists(adjusted, body))
  }

  /** The header list once build_all has adjusted Content-Length, if it is asked to; `body`
      is the measured body list. */
  function AdjustedHdr(touchClen: bool, proto: Proto, hdr: seq<Lump>, body: seq<Lump>, contentLength: Option<Field>,
                       unparsed: nat, bodyStart: Option<nat>, eoh: Option<nat>, len: nat, ctx: Ctx): seq<Lump> {
    var delta := Delta(body, ctx);
    var e := ClenNeeded(proto, delta, contentLength, unparsed);
    if !touchClen || e.NoEdit? || bodyStart.None? then hdr
    else match ClenApplied(Lists(hdr, body), e, Unsigned(len - bodyStart.value + delta), eoh, len)
         case None => hdr
         case Some(st) => st.hdr
  }

  /** The lump that announces a number: it takes the place of the old number, or is a header of
      its own in front of the final CRLF. */
  function Announcing(contentLength: Option<Field>, unparsed: nat, n: nat): Lump {
    match contentLength
    case Some(f) => Lump(Del(f.offset, f.len), [], [Text(Digits(n))])
    case None => Lump(Nop(unparsed), [], [Text("Content-Length: " + Digits(n) + "\r\n")])
  }

  /** No edit is needed exactly where the header that is there is right, or none may be. */
  lemma NeededWhen(proto: Proto, bodyDelta: int, contentLength: Option<Field>, unparsed: nat)
    ensures var e := ClenNeeded(proto, bodyDelta, contentLength, unparsed);
            (e.NoEdit? <==>
               if contentLength.Some? then bodyDelta == 0
               else proto != Tcp && proto != Tls && (bodyDelta == 0 || proto == Udp))
            && (!e.NoEdit? ==>
                  forall n: nat :: AddAfter(ClenLump(e), 0, Text(ClenText(e, n)))
                      == Announcing(contentLength, unparsed, n))
  {
  }

  lemma AppliedLump(st: Lists, e: ClenEdit, number: nat, eoh: Option<nat>, len: nat)
    requires !e.NoEdit? && ClenApplied(st, e, number, eoh, len).Some?
    ensures AddAfter(ClenLump(e), 0, Text(ClenText(e, number)))
            in Get(ClenApplied(st, e, number, eoh, len).value, TargetOf(ClenCall(e), eoh))
  {
    var target := TargetOf(ClenCall(e), eoh);
    var l, i := InsertSorted(Get(st, target), ClenLump(e)), SortedIndex(Get(st, target), ClenLump(e));
    InsertedAt(Get(st, target), ClenLump(e));
    assert l[i] == ClenLump(e);
    assert l[i := AddAfter(l[i], 0, Text(ClenText(e, number)))][i] == AddAfter(l[i], 0, Text(ClenText(e, number)));
  }

  /** Characters of the old number are deleted. */
  lemma OldNumberDeleted(l: seq<Lump>, f: Field, n: nat)
    requires Announcing(Some(f), 0, n) in l
    ensures forall p: nat :: f.offset <= p < f.offset + f.len ==> Deleted(p, l)
  {
    forall p: nat | f.offset <= p < f.offset + f.len ensures Deleted(p, l) {
      DeletesIn(l, Announcing(Some(f), 0, n), p);
    }
  }

  /** Cut to a 32-bit unsigned number. */
  function Unsigned(n: int): (r: nat)
    ensures r < 0x1_0000_0000
    decreases if n < 0 then 0x2_0000_0000 - n else n
  {
    if n < 0 then Unsigned(n + 0x1_0000_0000) else if n < 0x1_0000_0000 then n else Unsigned(n - 0x1_0000_0000)
  }

  /** It differs by whole multiples. */
  lemma {:induction false} UnsignedIsCongruent(n: int) returns (k: int)
    ensures n == Unsigned(n) + 0x1_0000_0000 * k
    decreases if n < 0 then 0x2_0000_0000 - n else n
  {
    if n < 0 {
      k := UnsignedIsCongruent(n + 0x1_0000_0000);
      k := k - 1;
    } else if n >= 0x1_0000_0000 {
      k := UnsignedIsCongruent(n - 0x1_0000_0000);
      k := k + 1;
    } else {
      k := 0;
    }
  }

  datatype ClenResult = Failed | Untouched | Number(n: nat)

  // ----- Where the body of the built message starts, and how long it is

  /** How many lumps are written before the body, which begins at `b`: anchored in front of it,
      or free in front of the first that is not. */
  function EarlyCount(l: seq<Lump>, b: nat): (k: nat)
    ensures k <= |l| && (k < |l| ==> l[k].Anchored() && b <= l[k].op.offset)
  {
    if l == [] || (l[0].Anchored() && b <= l[0].op.offset) then 0 else 1 + EarlyCount(l[1..], b)
  }

  predicate NoneBefore(l: seq<Lump>, b: nat) {
    forall t :: t in l && t.Anchored() ==> b <= t.op.offset
  }

  lemma KeepSplit(a: nat, m: nat, b: nat)
    requires a <= m <= b
    ensures Keep(a, b) == Keep(a, m) + Keep(m, b)
  {
  }

  /** The same list written from two offsets in front of its first range. */
  lemma OutputFromEarlier(t: Lump, rest: seq<Lump>, e: nat, b: nat, len: nat, ctx: Ctx)
    requires t.Anchored() && e <= b <= t.op.offset
    ensures Output([t] + rest, e, len, ctx) == Keep(e, b) + Output([t] + rest, b, len, ctx)
  {
    OutputStep(t, rest, e, len, ctx);
    OutputStep(t, rest, b, len, ctx);
    KeepSplit(e, b, t.op.offset);
    Assoc4(Keep(e, b), Keep(b, t.op.offset), Puts(LumpText(t, ctx)), Output(rest, Past(t.op, b), len, ctx));
  }

  /** A list from its first lump behind `b` on, written from some place: the rest of the
      original up to `b`, then what is written from there. */
  lemma LateOutput(l: seq<Lump>, m: nat, b: nat, len: nat, ctx: Ctx)
    requires m <= b <= len && (l != [] ==> l[0].Anchored() && b <= l[0].op.offset)
    ensures Output(l, m, len, ctx) == Keep(m, b) + Output(l, b, len, ctx)
  {
    if l == [] {
      KeepSplit(m, b, len);
      assert Output(l, m, len, ctx) == Keep(m, len) && Output(l, b, len, ctx) == Keep(b, len);
    } else {
      assert l == [l[0]] + l[1..];
      OutputFromEarlier(l[0], l[1..], m, b, len, ctx);
    }
  }

  lemma OutputFree(t: Lump, rest: seq<Lump>, e: nat, len: nat, ctx: Ctx)
    requires !t.Anchored()
    ensures Output([t] + rest, e, len, ctx) == Puts(LumpText(t, ctx)) + Output(rest, e, len, ctx)
  {
    OutputStep(t, rest, e, len, ctx);
    assert [] + Puts(LumpText(t, ctx)) == Puts(LumpText(t, ctx));
  }

  /** What the header edits and the early body lumps write, and where they end. */
  function InFront(hdr: seq<Lump>, body: seq<Lump>, b: nat): seq<Lump> {
    var fb := Fix(body, 0);
    Fix(hdr, 0) + fb[..EarlyCount(fb, b)]
  }

  function Behind(body: seq<Lump>, b: nat): seq<Lump> {
    var fb := Fix(body, 0);
    fb[EarlyCount(fb, b)..]
  }

  /** Where the body of the built message begins in the original: at `b`, or where edits in
      front of it have reached. */
  function BodyFrom(hdr: seq<Lump>, body: seq<Lump>, b: nat): nat {
    Later(RenderEnd(InFront(hdr, body, b), 0), b)
  }

  /** By how much Content-Length exceeds the body: what the early body lumps add or remove,
      what edits in front of the body have taken of it, and what is ignored behind. */
  function Overcount(hdr: seq<Lump>, body: seq<Lump>, b: nat, ctx: Ctx): int {
    var fb := Fix(body, 0);
    Delta(fb[..EarlyCount(fb, b)], ctx) + (BodyFrom(hdr, body, b) - b)
    + IgnoredDelta(Behind(body, b), BodyFrom(hdr, body, b), ctx)
  }

  lemma DividedBuilt(hdr: seq<Lump>, body: seq<Lump>, b: nat, len: nat)
    requires InRange(hdr, len) && InRange(body, len)
    ensures Fix(hdr, 0) + Fix(body, 0) == InFront(hdr, body, b) + Behind(body, b)
    ensures var fb := Fix(body, 0); fb == fb[..EarlyCount(fb, b)] + Behind(body, b)
    ensures InRange(InFront(hdr, body, b), len) && InRange(Behind(body, b), len)
  {
    FixDisjoint(hdr, 0, len);
    FixDisjoint(body, 0, len);
    Regrouped(Fix(hdr, 0), Fix(body, 0), EarlyCount(Fix(body, 0), b), len);
  }

  lemma Regrouped(l: seq<Lump>, r: seq<Lump>, k: nat, len: nat)
    requires InRange(l, len) && InRange(r, len) && k <= |r|
    ensures r == r[..k] + r[k..] && l + r == l + r[..k] + r[k..]
    ensures InRange(l + r[..k], len) && InRange(r[k..], len)
  {
    assert forall t :: t in l + r[..k] ==> t in l || t in r;
  }

  /** Content-Length theorem, for any edits of header and body: the number len - b + delta that
      is announced exceeds the count of characters in the body of the built message, which
      follow all that is written of the header, by exactly Overcount. */
  lemma ContentLengthCountsBody(hdr: seq<Lump>, body: seq<Lump>, b: nat, len: nat, ctx: Ctx)
    returns (front: seq<Cell>, back: seq<Cell>)
    requires InRange(hdr, len) && InRange(body, len) && b <= len
    ensures Output(Fix(hdr, 0) + Fix(body, 0), 0, len, ctx) == front + back
    ensures var m := RenderEnd(InFront(hdr, body, b), 0);
            front == Render(InFront(hdr, body, b), 0, ctx) + (if m <= b then Keep(m, b) else [])
            && back == Output(Behind(body, b), BodyFrom(hdr, body, b), len, ctx)
    ensures len - b + Delta(Fix(body, 0), ctx) == |back| + Overcount(hdr, body, b, ctx)
  {
    var fb, c := Fix(body, 0), BodyFrom(hdr, body, b);
    var k := EarlyCount(fb, b);
    var infront, behind := InFront(hdr, body, b), Behind(body, b);
    var m := RenderEnd(infront, 0);
    DividedBuilt(hdr, body, b, len);
    RenderEndInRange(infront, 0, len);
    OutputConcat(infront, behind, 0, len, ctx);
    DeltaConcat(fb[..k], behind, ctx);
    WrittenLength(behind, c, len, ctx);
    back := Output(behind, c, len, ctx);
    front := Render(infront, 0, ctx) + (if m <= b then Keep(m, b) else []);
    if m <= b {
      LateOutput(behind, m, b, len, ctx);
      Assoc(Render(infront, 0, ctx), Keep(m, b), back);
    } else {
      assert Render(infront, 0, ctx) + [] == Render(infront, 0, ctx);
    }
  }

  /** Where the header edits end in front of the body and the body edits begin in it, that is
      the free text that leads the body list. */
  lemma OvercountIsLeadingText(hdr: seq<Lump>, body: seq<Lump>, b: nat, len: nat, ctx: Ctx)
    requires InRange(hdr, len) && InRange(body, len) && b <= len && InRange(hdr, b) && NoneBefore(body, b)
    ensures var fb := Fix(body, 0);
            Overcount(hdr, body, b, ctx) == |AllText(fb[..EarlyCount(fb, b)], ctx)|
  {
    var fh, fb := Fix(hdr, 0), Fix(body, 0);
    var k := EarlyCount(fb, b);
    FixNoneBefore(body, 0, b);
    FixDisjoint(body, 0, len);
    AllEarlyFree(fb, b);
    FreeDelta(fb[..k], ctx);
    FixDisjoint(hdr, 0, b);
    assert forall t :: t in fb[..k] ==> !t.Anchored();
    RenderEndInRange(InFront(hdr, body, b), 0, b);
    var from := DisjointBehind(fb, 0, k);
    assert forall t :: t in Behind(body, b) ==> t in fb;
    NoneIgnored(Behind(body, b), from, b, ctx);
  }

  lemma {:induction false} AllEarlyFree(l: seq<Lump>, b: nat)
    requires NoneBefore(l, b)
    ensures NoneAnchored(l[..EarlyCount(l, b)])
  {
    if l != [] && !l[0].Anchored() {
      AllEarlyFree(l[1..], b);
      assert l[..EarlyCount(l, b)] == [l[0]] + l[1..][..EarlyCount(l[1..], b)];
    } else if l != [] {
      assert l[0] in l;
    }
  }

  lemma {:induction false} FreeDelta(l: seq<Lump>, ctx: Ctx)
    requires NoneAnchored(l)
    ensures Delta(l, ctx) == |AllText(l, ctx)|
  {
    if l != [] {
      assert l[0] in l;
      FreeDelta(l[1..], ctx);
    }
  }

  lemma {:induction false} DisjointBehind(l: seq<Lump>, s: nat, k: nat) returns (from: nat)
    requires Disjoint(l, s) && k <= |l|
    ensures Disjoint(l[k..], from)
  {
    if k == 0 {
      from := s;
      assert l[0..] == l;
    } else {
      from := DisjointBehind(l[1..], Past(l[0].op, s), k - 1);
      assert l[1..][k - 1..] == l[k..];
    }
  }

  /** A free text at the head of the body list, no other edit, and a body of three characters:
      four are announced and three follow the header. */
  lemma LeadingTextMiscounts(ctx: Ctx)
    ensures var body := [Free("x")];
            Output(Fix([], 0) + Fix(body, 0), 0, 6, ctx) == [Put('x')] + Keep(0, 2) + [Kept(2)] + Keep(3, 6)
            && |Keep(3, 6)| == 3 && 6 - 3 + Delta(Fix(body, 0), ctx) == 4
  {
    var x := Free("x");
    FreeAlone("x", 0, ctx);
    assert Fix([x], 0) == [x] && Fix([], 0) + [x] == [x] && [x] + [] == [x];
    assert Delta([x], ctx) == 1;
    OutputFree(x, [], 0, 6, ctx);
    SixKept();
    assert Puts("x") == [Put('x')] && Output([], 0, 6, ctx) == Keep(0, 6);
    Assoc4([Put('x')], Keep(0, 2), [Kept(2)], Keep(3, 6));
  }

  lemma SixKept()
    ensures Keep(0, 6) == Keep(0, 2) + [Kept(2)] + Keep(3, 6) && |Keep(3, 6)| == 3
  {
    assert Keep(2, 3) == [Kept(2)];
    KeepSplit(0, 2, 6);
    KeepSplit(2, 3, 6);
    Assoc(Keep(0, 2), [Kept(2)], Keep(3, 6));
  }

  lemma {:induction false} FixNoneBefore(l: seq<Lump>, s: nat, b: nat)
    requires NoneBefore(l, b)
    ensures NoneBefore(Fix(l, s), b)
  {
    if l != [] {
      assert l[0] in l;
      FixNoneBefore(l[1..], Past(FixedOp(l[0].op, s), s), b);
    }
  }

  /** Content-Length stays a number of the body when it is spelled out. */
  lemma ClenTextReadsBack(e: ClenEdit, number: nat)
    requires !e.NoEdit?
    ensures var skip := if e.Rewrite? then 0 else |CONTENT_LENGTH|;
            var stop := |ClenText(e, number)| - (if e.Rewrite? then 0 else |CRLF|);
            skip <= stop
            && (forall c :: c in ClenText(e, number)[skip..stop] ==> IsDigit(c))
            && Value(ClenText(e, number)[skip..stop]) == number
  {
    DigitsReadBack(number);
    if e.Announce? {
      var t := ClenText(e, number);
      assert t == CONTENT_LENGTH + (Digits(number) + CRLF);
      assert t[|CONTENT_LENGTH|..|t| - |CRLF|] == Digits(number);
    } else {
      assert Digits(number)[0..|Digits(number)|] == Digits(number);
    }
  }

  /** The number is that of the measured body list, and the header list is adjusted by it. */
  ghost predicate Announced(n: nat, proto: Proto, hdr: seq<Lump>, body: seq<Lump>, contentLength: Option<Field>,
                            unparsed: nat, bodyStart: Option<nat>, eoh: Option<nat>, len: nat, adjusted: seq<Lump>,
                            ctx: Ctx)
  {
    bodyStart.Some? && n == Unsigned(len - bodyStart.value + Delta(body, ctx))
    && ClenDone(hdr, body, ClenNeeded(proto, Delta(body, ctx), contentLength, unparsed), n, eoh, len, adjusted)
  }

  /** What build_all has written for two measured lists: the joint output, closed by a zero, and
      nothing if that is empty. */
  ghost predicate Written(content: Option<string>, length: nat, hdr: seq<Lump>, body: seq<Lump>, buf: string,
                          ctx: Ctx) {
    var cells := Output(hdr + body, 0, |buf|, ctx);
    length == |cells|
    && match content
       case None => cells == []
       case Some(s) => |cells| < |s| && s[..|cells|] == Chars(cells, buf) && s[|cells|] == '\0'
  }

  // ----- The message

  class SipMsg {
    const buf: string
    const addRm: LumpList
    const bodyLumps: LumpList
    // what the parser found, complete before any edit is queued
    const eoh: Option<nat>                 // offset of the final CRLF of the headers
    const contentLength: Option<Field>
    const unparsed: nat
    const bodyStart: Option<nat>

    ghost predicate Valid() {
      addRm != bodyLumps
    }

    ghost function View(): Lists
      reads addRm, bodyLumps
    {
      Lists(addRm.lumps, bodyLumps.lumps)
    }

    constructor (buf: string, eoh: Option<nat>, contentLength: Option<Field>, unparsed: nat, bodyStart: Option<nat>)
      ensures Valid() && fresh(addRm) && fresh(bodyLumps) && View() == Lists([], [])
      ensures this.buf == buf && this.eoh == eoh && this.contentLength == contentLength
      ensures this.unparsed == unparsed && this.bodyStart == bodyStart
    {
      this.buf := buf;
      this.eoh, this.contentLength, this.unparsed, this.bodyStart := eoh, contentLength, unparsed, bodyStart;
      var headers := new LumpList();
      var body := new LumpList();
      addRm, bodyLumps := headers, body;
    }

    /** del_lump: None where the program aborts. */
    method DelLump(offset: nat, len: nat) returns (r: Option<nat>)
      requires Valid()
      modifies addRm, bodyLumps
      ensures r.Some? <==> Apply(old(View()), DelCall(offset, len), eoh, |buf|).Some?
      ensures View() == if r.Some? then Apply(old(View()), DelCall(offset, len), eoh, |buf|).value else old(View())
      ensures r.Some? ==> r.value == SortedIndex(Get(old(View()), Goes(offset, eoh)), Lump(Del(offset, len), [], []))
      ensures r.Some? <==> offset + len <= |buf|
      ensures if eoh.Some? && offset > eoh.value then addRm.lumps == old(addRm.lumps)
              else bodyLumps.lumps == old(bodyLumps.lumps)
    {
      if offset > |buf| { return None; }
      if offset + len > |buf| { return None; }
      var list := if eoh.Some? && offset > eoh.value then bodyLumps else addRm;
      var i := list.InsertOrdered(Lump(Del(offset, len), [], []));
      return Some(i);
    }

    /** anchor_lump: None where the program aborts. */
    method AnchorLump(offset: nat) returns (r: Option<nat>)
      requires Valid()
      modifies addRm, bodyLumps
      ensures r.Some? <==> Apply(old(View()), AnchorCall(offset), eoh, |buf|).Some?
      ensures View() == if r.Some? then Apply(old(View()), AnchorCall(offset), eoh, |buf|).value else old(View())
      ensures r.Some? ==> r.value == SortedIndex(Get(old(View()), Goes(offset, eoh)), Lump(Nop(offset), [], []))
      ensures r.Some? <==> offset <= |buf|
      ensures if eoh.Some? && offset > eoh.value then addRm.lumps == old(addRm.lumps)
              else bodyLumps.lumps == old(bodyLumps.lumps)
    {
      if offset > |buf| { return None; }
      var list := if eoh.Some? && offset > eoh.value then bodyLumps else addRm;
      var i := list.InsertOrdered(Lump(Nop(offset), [], []));
      return Some(i);
    }

    /** The first half of adjust_clen: decide whether Content-Length changes and
        queue the anchor or the deletion it hangs on. */
    method AnchorClen(bodyDelta: int, proto: Proto, parseOk: bool) returns (ok: bool, anchor: Option<nat>)
      requires Valid()
      modifies addRm, bodyLumps
      ensures var e := ClenNeeded(proto, bodyDelta, contentLength, unparsed);
              ok && anchor.None? ==> e.NoEdit? && View() == old(View())
      ensures var e := ClenNeeded(proto, bodyDelta, contentLength, unparsed);
              ok && anchor.Some? ==>
                parseOk && !e.NoEdit? && Apply(old(View()), ClenCall(e), eoh, |buf|) == Some(View())
                && anchor.value == SortedIndex(Get(old(View()), TargetOf(ClenCall(e), eoh)), ClenLump(e))
      ensures var e := ClenNeeded(proto, bodyDelta, contentLength, unparsed);
              !ok ==> View() == old(View())
                      && (!parseOk || (!e.NoEdit? && Apply(old(View()), ClenCall(e), eoh, |buf|).None?))
      ensures ok ==>
                (anchor.None? <==>
                   if contentLength.Some? then bodyDelta == 0
                   else proto != Tcp && proto != Tls && (bodyDelta == 0 || proto == Udp))
    {
      ok, anchor := true, None;
      if proto == Tcp || proto == Tls {
        if !parseOk { return false, None; }
        if contentLength.None? {
          anchor := AnchorLump(unparsed);
          ok := anchor.Some?;
          return;
        }
      }
      if bodyDelta != 0 {
        if !parseOk { return false, None; }
        if contentLength.None? {
          if proto != Udp {
            anchor := AnchorLump(unparsed);
            ok := anchor.Some?;
          }
        } else {
          anchor := DelLump(contentLength.value.offset, contentLength.value.len);
          ok := anchor.Some?;
        }
      }
    }

    /** adjust_clen, with clen_builder inside; parseOk says whether parse_headers
        succeeds. When the body cannot be found the anchor stays queued. */
    method AdjustClen(bodyDelta: int, proto: Proto, parseOk: bool) returns (r: ClenResult)
      requires Valid()
      modifies addRm, bodyLumps
      ensures var e := ClenNeeded(proto, bodyDelta, contentLength, unparsed);
              r.Untouched? ==> e.NoEdit? && View() == old(View())
      ensures var e := ClenNeeded(proto, bodyDelta, contentLength, unparsed);
              r.Number? ==>
                parseOk && !e.NoEdit? && bodyStart.Some? && r.n == Unsigned(|buf| - bodyStart.value + bodyDelta)
                && ClenApplied(old(View()), e, r.n, eoh, |buf|) == Some(View())
      ensures var e := ClenNeeded(proto, bodyDelta, contentLength, unparsed);
              r.Failed? ==>
                !parseOk || (!e.NoEdit? && (Apply(old(View()), ClenCall(e), eoh, |buf|).None? || bodyStart.None?))
      ensures var e := ClenNeeded(proto, bodyDelta, contentLength, unparsed);
              r.Failed? ==>
                View() == old(View())
                || (bodyStart.None? && !e.NoEdit? && Apply(old(View()), ClenCall(e), eoh, |buf|) == Some(View()))
      ensures ClenChosen(proto, r, bodyDelta, contentLength, unparsed,
                         Get(View(), Goes(if contentLength.Some? then contentLength.value.offset else unparsed, eoh)))
    {
      NeededWhen(proto, bodyDelta, contentLength, unparsed);
      ghost var e := ClenNeeded(proto, bodyDelta, contentLength, unparsed);
      var ok, anchor := AnchorClen(bodyDelta, proto, parseOk);
      if !ok { return Failed; }
      if anchor.None? { return Untouched; }
      if bodyStart.None? { return Failed; }
      var value := Unsigned(|buf| - bodyStart.value + bodyDelta);
      HangClen(anchor.value, value, e, old(View()));
      AppliedLump(old(View()), e, value, eoh, |buf|);
      NumberChosen(proto, value, bodyDelta, contentLength, unparsed, Get(View(), TargetOf(ClenCall(e), eoh)));
      return Number(value);
    }

    /** clen_builder, and the insertion of its text. */
    method HangClen(anchor: nat, value: nat, ghost e: ClenEdit, ghost was: Lists)
      requires value < 0x1_0000_0000
      requires Valid() && !e.NoEdit?
               && e == (if contentLength.Some? then Rewrite(contentLength.value.offset, contentLength.value.len)
                        else Announce(unparsed))
      requires Apply(was, ClenCall(e), eoh, |buf|) == Some(View())
      requires anchor == SortedIndex(Get(was, TargetOf(ClenCall(e), eoh)), ClenLump(e))
      modifies addRm, bodyLumps
      ensures ClenApplied(was, e, value, eoh, |buf|) == Some(View())
    {
      var digits := Int2Str(value);
      var bodyOnly := contentLength.Some?;
      var at := if bodyOnly then contentLength.value.offset else unparsed;
      var text := if bodyOnly then digits else CONTENT_LENGTH + digits + CRLF;
      var list := if eoh.Some? && at > eoh.value then bodyLumps else addRm;
      InsertedAt(Get(was, TargetOf(ClenCall(e), eoh)), ClenLump(e));
      list.InsertAfter(anchor, 0, Text(text));
    }

    /** What the calls that queue edits see to. */
    ghost predicate Queued()
      reads addRm, bodyLumps
    {
      Valid() && InRange(addRm.lumps, |buf|) && InRange(bodyLumps.lumps, |buf|)
    }

    /** Content-Length lies among the headers. */
    ghost predicate FieldsParsed() {
      eoh.Some? ==> unparsed <= eoh.value && (contentLength.Some? ==> contentLength.value.offset <= eoh.value)
    }

    /** Both lists, then the rest of the message, from `start` on. */
    method WriteLists(hdr: seq<Lump>, body: seq<Lump>, start: nat, ctx: Ctx, newBuf: array<char>, at: nat)
      returns (offset: nat)
      requires start <= |buf| && InRange(hdr, |buf|) && InRange(body, |buf|)
      requires at + |Output(hdr + body, start, |buf|, ctx)| <= newBuf.Length
      modifies newBuf
      ensures offset == at + |Output(hdr + body, start, |buf|, ctx)|
      ensures newBuf[..offset] == old(newBuf[..at]) + Chars(Output(hdr + body, start, |buf|, ctx), buf)
    {
      BuiltChars(hdr, body, start, buf, ctx);
      var sOffset;
      offset, sOffset := ProcessLumps(hdr, buf, ctx, newBuf, at, start);
      offset, sOffset := ProcessLumps(body, buf, ctx, newBuf, offset, sOffset);
      offset := Copy(newBuf, offset, buf[sOffset..]);
      Assoc4(old(newBuf[..at]), Chars(Render(hdr, start, ctx), buf),
             Chars(Render(body, RenderEnd(hdr, start), ctx), buf), buf[sOffset..]);
    }

    /** The tail of build_all: measure both lists, allocate what the measuring announced,
        write both lists and copy the rest. What is required is exactly that the writing
        stays inside the buffer (WritesFitIff). */
    method BuildLumps(ctx: Ctx, bodyDelta: int) returns (built: Option<array<char>>, returnedLen: nat)
      requires Queued() && Disjoint(bodyLumps.lumps, 0) && bodyDelta == Delta(bodyLumps.lumps, ctx)
      requires IgnoredDelta(bodyLumps.lumps, HeaderEnd(addRm.lumps), ctx) >= 0
      modifies addRm
      ensures addRm.lumps == Fix(old(addRm.lumps), 0)
      ensures var cells := Output(addRm.lumps + bodyLumps.lumps, 0, |buf|, ctx);
              var announced := |buf| + Delta(addRm.lumps, ctx) + bodyDelta;
              |cells| <= announced && (built.None? <==> announced == 0)
              && (built.Some? ==> fresh(built.value) && built.value.Length == announced + 1)
      ensures Written(if built.Some? then Some(built.value[..]) else None, returnedLen, addRm.lumps, bodyLumps.lumps,
                      buf, ctx)
    {
      ghost var cells := Output(Fix(addRm.lumps, 0) + bodyLumps.lumps, 0, |buf|, ctx);
      FixDisjoint(addRm.lumps, 0, |buf|);
      MeasuredFits(addRm.lumps, bodyLumps.lumps, |buf|, ctx);
      var hdrDelta := addRm.LumpsLen(ctx);
      var newLen := |buf| + hdrDelta + bodyDelta;
      assert |cells| <= newLen;
      if newLen == 0 { return None, 0; }
      var newBuf := new char[newLen + 1];
      returnedLen := WriteLists(addRm.lumps, bodyLumps.lumps, 0, ctx, newBuf, 0);
      newBuf[returnedLen] := '\0';
      assert newBuf[..][..returnedLen] == newBuf[..returnedLen];
      built := Some(newBuf);
    }

    /** adjust_clen, for a measured body list. */
    method Adjust(bodyDelta: int, proto: Proto, parseOk: bool, ghost body: seq<Lump>, ghost ctx: Ctx)
      returns (clen: ClenResult)
      requires Queued() && FieldsParsed() && bodyDelta == Delta(bodyLumps.lumps, ctx)
      requires InRange(body, |buf|) && bodyLumps.lumps == Fix(body, 0)
      modifies addRm, bodyLumps
      ensures !clen.Failed? ==>
                Queued() && bodyLumps.lumps == old(bodyLumps.lumps)
                && addRm.lumps
                    == AdjustedHdr(true, proto, old(addRm.lumps), old(bodyLumps.lumps), contentLength, unparsed,
                                   bodyStart, eoh, |buf|, ctx)
      ensures clen.Untouched? ==> addRm.lumps == old(addRm.lumps)
      ensures !clen.Failed? ==>
                ClenRight(proto, clen, contentLength, unparsed, bodyStart, body, addRm.lumps, |buf|, ctx)
      ensures clen.Number? ==>
                Announced(clen.n, proto, old(addRm.lumps), old(bodyLumps.lumps), contentLength, unparsed, bodyStart,
                          eoh,
                          |buf|, addRm.lumps, ctx)
    {
      clen := AdjustLists(bodyDelta, proto, parseOk, ctx);
      if !clen.Failed? {
        BothRight(proto, clen, bodyDelta, contentLength, unparsed, bodyStart, body, addRm.lumps, |buf|, ctx);
      }
    }

    method AdjustLists(bodyDelta: int, proto: Proto, parseOk: bool, ghost ctx: Ctx) returns (clen: ClenResult)
      requires Queued() && FieldsParsed() && bodyDelta == Delta(bodyLumps.lumps, ctx)
      modifies addRm, bodyLumps
      ensures !clen.Failed? ==>
                Queued() && bodyLumps.lumps == old(bodyLumps.lumps)
                && addRm.lumps
                    == AdjustedHdr(true, proto, old(addRm.lumps), old(bodyLumps.lumps), contentLength, unparsed,
                                   bodyStart, eoh, |buf|, ctx)
      ensures clen.Untouched? ==> addRm.lumps == old(addRm.lumps)
      ensures ClenChosen(proto, clen, bodyDelta, contentLength, unparsed, addRm.lumps)
      ensures clen.Number? ==>
                Announced(clen.n, proto, old(addRm.lumps), old(bodyLumps.lumps), contentLength, unparsed, bodyStart,
                          eoh,
                          |buf|, addRm.lumps, ctx)
    {
      ghost var st, e := View(), ClenNeeded(proto, bodyDelta, contentLength, unparsed);
      clen := AdjustClen(bodyDelta, proto, parseOk);
      if clen.Number? { AdjustedInRange(st, e, clen.n, eoh, |buf|); }
    }

    /** The first steps of build_all: measure the body list, then adjust Content-Length if
        asked to. */
    method MeasureAndAdjust(touchClen: bool, proto: Proto, parseOk: bool, ctx: Ctx)
      returns (bodyDelta: int, clen: ClenResult)
      requires Queued() && FieldsParsed()
      modifies addRm, bodyLumps
      ensures !clen.Failed? ==>
                Queued() && bodyLumps.lumps == Fix(old(bodyLumps.lumps), 0) && Disjoint(bodyLumps.lumps, 0)
                && bodyDelta == Delta(bodyLumps.lumps, ctx)
                && addRm.lumps
                    == AdjustedHdr(touchClen, proto, old(addRm.lumps), bodyLumps.lumps, contentLength, unparsed,
                                   bodyStart, eoh, |buf|, ctx)
      ensures clen.Untouched? ==> addRm.lumps == old(addRm.lumps)
      ensures touchClen && !clen.Failed? ==>
                ClenRight(proto, clen, contentLength, unparsed, bodyStart, old(bodyLumps.lumps), addRm.lumps, |buf|,
                          ctx)
      ensures clen.Number? ==>
                touchClen
                && Announced(clen.n, proto, old(addRm.lumps), bodyLumps.lumps, contentLength, unparsed, bodyStart, eoh,
                             |buf|, addRm.lumps, ctx)
    {
      clen := Untouched;
      FixDisjoint(bodyLumps.lumps, 0, |buf|);
      bodyDelta := bodyLumps.LumpsLen(ctx);
      if touchClen { clen := Adjust(bodyDelta, proto, parseOk, old(bodyLumps.lumps), ctx); }
    }

    /** build_all: measure the body, adjust Content-Length if asked to, build. */
    method BuildAll(touchClen: bool, proto: Proto, parseOk: bool, ctx: Ctx)
      returns (built: Option<array<char>>, returnedLen: nat, clen: ClenResult, ghost adjusted: seq<Lump>)
      requires Queued() && FieldsParsed()
      requires var body := Fix(bodyLumps.lumps, 0);
               var hdr := AdjustedHdr(touchClen, proto, addRm.lumps, body, contentLength, unparsed, bodyStart, eoh,
                                      |buf|, ctx);
               IgnoredDelta(body, HeaderEnd(hdr), ctx) >= 0
      modifies addRm, bodyLumps
      ensures clen.Failed? ==> built.None?
      ensures !clen.Failed? ==>
                addRm.lumps == Fix(adjusted, 0) && bodyLumps.lumps == Fix(old(bodyLumps.lumps), 0)
                && adjusted == AdjustedHdr(touchClen, proto, old(addRm.lumps), bodyLumps.lumps, contentLength, unparsed,
                                           bodyStart, eoh, |buf|, ctx)
      ensures built.Some? ==> fresh(built.value)
      ensures !clen.Failed? ==>
                Written(if built.Some? then Some(built.value[..]) else None, returnedLen, addRm.lumps, bodyLumps.lumps,
                        buf, ctx)
      ensures clen.Untouched? ==> adjusted == old(addRm.lumps)
      ensures clen.Number? ==>
                touchClen
                && Announced(clen.n, proto, old(addRm.lumps), bodyLumps.lumps, contentLength, unparsed, bodyStart, eoh,
                             |buf|, adjusted, ctx)
      ensures touchClen && !clen.Failed? ==>
                ClenRight(proto, clen, contentLength, unparsed, bodyStart, old(bodyLumps.lumps), adjusted, |buf|, ctx)
    {
      built, returnedLen := None, 0;
      var bodyDelta;
      bodyDelta, clen := MeasureAndAdjust(touchClen, proto, parseOk, ctx);
      adjusted := addRm.lumps;
      if !clen.Failed? {
        assert IgnoredDelta(bodyLumps.lumps, HeaderEnd(adjusted), ctx) >= 0;
        built, returnedLen := BuildLumps(ctx, bodyDelta);
      }
    }

    /** With a new URI, the message up to the old one and the new one. */
    method WriteFront(newUri: Option<string>, uriOffset: nat, newBuf: array<char>) returns (offset: nat)
      requires uriOffset <= |buf| && (newUri.Some? ==> uriOffset + |newUri.value| <= newBuf.Length)
      modifies newBuf
      ensures offset <= newBuf.Length
      ensures newBuf[..offset] == if newUri.Some? then buf[..uriOffset] + newUri.value else ""
    {
      offset := 0;
      if newUri.Some? {
        offset := Copy(newBuf, 0, buf[..uriOffset]);
        offset := Copy(newBuf, offset, newUri.value);
      }
    }

    /** The tail of build_req_buf_from_sip_req: with a new URI the message up to the old one,
        the new one, and both lists from behind the old one; else both lists from the start.
        The length returned is the one announced, which may exceed what is written. */
    method BuildRequest(newUri: Option<string>, uriOffset: nat, uriLen: nat, ctx: Ctx, bodyDelta: int)
      returns (newBuf: array<char>, returnedLen: nat)
      requires Queued() && uriOffset + uriLen <= |buf|
      requires Disjoint(bodyLumps.lumps, 0) && bodyDelta == Delta(bodyLumps.lumps, ctx)
      requires var start := if newUri.Some? then uriOffset + uriLen else 0;
               IgnoredDelta(Fix(addRm.lumps, 0) + bodyLumps.lumps, start, ctx) >= 0
      modifies addRm
      ensures addRm.lumps == Fix(old(addRm.lumps), 0) && fresh(newBuf)
      ensures var start := if newUri.Some? then uriOffset + uriLen else 0;
              var front := if newUri.Some? then buf[..uriOffset] + newUri.value else "";
              var cells := Output(addRm.lumps + bodyLumps.lumps, start, |buf|, ctx);
              returnedLen == |front| + |cells| + IgnoredDelta(addRm.lumps + bodyLumps.lumps, start, ctx)
              && newBuf.Length == returnedLen + 1 && newBuf[returnedLen] == '\0'
              && newBuf[..|front| + |cells|] == front + Chars(cells, buf)
    {
      var start := if newUri.Some? then uriOffset + uriLen else 0;
      ghost var cells := Output(Fix(addRm.lumps, 0) + bodyLumps.lumps, start, |buf|, ctx);
      FixDisjoint(addRm.lumps, 0, |buf|);
      AnnouncedAndWritten(Fix(addRm.lumps, 0), bodyLumps.lumps, start, |buf|, ctx);
      var hdrDelta := addRm.LumpsLen(ctx);
      var newLen := |buf| + bodyDelta + hdrDelta;
      if newUri.Some? { newLen := newLen - uriLen + |newUri.value|; }
      newBuf := new char[newLen + 1];
      var offset := WriteFront(newUri, uriOffset, newBuf);
      ghost var front := newBuf[..offset];
      offset := WriteLists(addRm.lumps, bodyLumps.lumps, start, ctx, newBuf, offset);
      assert newBuf[..offset] == front + Chars(cells, buf);
      newBuf[newLen] := '\0';
      returnedLen := newLen;
    }
  }

  /** What is announced for two measured lists and what is written of them differ by exactly
      the lumps that are ignored. */
  lemma AnnouncedAndWritten(hdr: seq<Lump>, body: seq<Lump>, start: nat, len: nat, ctx: Ctx)
    requires InRange(hdr, len) && InRange(body, len) && start <= len
    ensures |Output(hdr + body, start, len, ctx)|
         == len - start + Delta(hdr, ctx) + Delta(body, ctx) - IgnoredDelta(hdr + body, start, ctx)
  {
    WrittenLength(hdr + body, start, len, ctx);
    DeltaConcat(hdr, body, ctx);
  }

  lemma MeasuredFits(hdr: seq<Lump>, body: seq<Lump>, len: nat, ctx: Ctx)
    requires InRange(hdr, len) && InRange(body, len) && Disjoint(body, 0)
    ensures |Output(Fix(hdr, 0) + body, 0, len, ctx)|
         == len + Delta(Fix(hdr, 0), ctx) + Delta(body, ctx) - IgnoredDelta(body, HeaderEnd(hdr), ctx)
  {
    DisjointIsFixed(body, 0);
    BuiltLength(hdr, body, len, ctx);
  }

  /** The Content-Length number BuildAll announces, against the message it builds: cut to 32
      bits, it is the count of characters in the body and Overcount. */
  lemma BuiltContentLength(hdr: seq<Lump>, body: seq<Lump>, e: ClenEdit, number: nat, eoh: Option<nat>, len: nat,
                           adjusted: seq<Lump>, b: nat, ctx: Ctx)
    returns (front: seq<Cell>, back: seq<Cell>)
    requires ClenDone(hdr, Fix(body, 0), e, number, eoh, len, adjusted)
    requires number == Unsigned(len - b + Delta(Fix(body, 0), ctx)) && b <= len
    requires eoh.Some? ==> ClenLump(e).op.offset <= eoh.value
    requires InRange(hdr, len) && InRange(body, len)
    ensures Output(Fix(adjusted, 0) + Fix(body, 0), 0, len, ctx) == front + back
    ensures back == Output(Behind(body, b), BodyFrom(adjusted, body, b), len, ctx)
    ensures number == Unsigned(|back| + Overcount(adjusted, body, b, ctx))
  {
    AdjustedInRange(Lists(hdr, Fix(body, 0)), e, number, eoh, len);
    front, back := ContentLengthCountsBody(adjusted, body, b, len, ctx);
  }

  /** The built message ends in its body, and the number counts it, cut to 32 bits, up to
      Overcount. */
  ghost predicate CountsBody(number: nat, hdr: seq<Lump>, body: seq<Lump>, b: nat, len: nat, ctx: Ctx) {
    var all := Output(Fix(hdr, 0) + Fix(body, 0), 0, len, ctx);
    var back := Output(Behind(body, b), BodyFrom(hdr, body, b), len, ctx);
    |back| <= |all| && all[|all| - |back|..] == back && number == Unsigned(|back| + Overcount(hdr, body, b, ctx))
  }

  lemma LengthCounts(hdr: seq<Lump>, body: seq<Lump>, b: nat, len: nat, ctx: Ctx)
    requires InRange(hdr, len) && InRange(body, len) && b <= len
    ensures CountsBody(Unsigned(len - b + Delta(Fix(body, 0), ctx)), hdr, body, b, len, ctx)
  {
    var front, back := ContentLengthCountsBody(hdr, body, b, len, ctx);
    assert (front + back)[|front|..] == back;
  }

  /** What adjust_clen decides when the body edits change the length by `bodyDelta`. */
  ghost predicate ClenChosen(proto: Proto, clen: ClenResult, bodyDelta: int, contentLength: Option<Field>,
                             unparsed: nat, adjusted: seq<Lump>)
  {
    match clen
    case Failed => true
    case Untouched =>
      (bodyDelta == 0 || (contentLength.None? && proto == Udp))
          && (proto == Tcp || proto == Tls ==> contentLength.Some?)
    case Number(n) =>
      Announcing(contentLength, unparsed, n) in adjusted
      && match contentLength
         case Some(f) => bodyDelta != 0 && forall p: nat :: f.offset <= p < f.offset + f.len ==> Deleted(p, adjusted)
         case None => proto == Tcp || proto == Tls || (bodyDelta != 0 && proto != Udp)
  }

  /** What it leaves of Content-Length. The number of a message that came with one is taken to
      have counted the body: then the one it goes out with does, rewritten or not. */
  ghost predicate ClenCounts(clen: ClenResult, contentLength: Option<Field>, bodyStart: Option<nat>, body: seq<Lump>,
                             adjusted: seq<Lump>, len: nat, ctx: Ctx)
  {
    (clen.Number? || (clen.Untouched? && contentLength.Some?)) && bodyStart.Some? && bodyStart.value <= len ==>
      CountsBody(if clen.Number? then clen.n else Unsigned(len - bodyStart.value), adjusted, body, bodyStart.value,
                 len, ctx)
  }

  lemma NumberChosen(proto: Proto, n: nat, bodyDelta: int, contentLength: Option<Field>, unparsed: nat,
                     adjusted: seq<Lump>)
    requires var e := ClenNeeded(proto, bodyDelta, contentLength, unparsed);
             !e.NoEdit? && AddAfter(ClenLump(e), 0, Text(ClenText(e, n))) in adjusted
    ensures ClenChosen(proto, Number(n), bodyDelta, contentLength, unparsed, adjusted)
  {
    NeededWhen(proto, bodyDelta, contentLength, unparsed);
    if contentLength.Some? { OldNumberDeleted(adjusted, contentLength.value, n); }
  }

  lemma NumberCounts(clen: ClenResult, bodyDelta: int, contentLength: Option<Field>, bodyStart: Option<nat>,
                     body: seq<Lump>, adjusted: seq<Lump>, len: nat, ctx: Ctx)
    requires InRange(adjusted, len) && InRange(body, len) && bodyDelta == Delta(Fix(body, 0), ctx)
    requires clen.Number? ==> bodyStart.Some? && clen.n == Unsigned(len - bodyStart.value + bodyDelta)
    requires clen.Untouched? && contentLength.Some? ==> bodyDelta == 0
    ensures ClenCounts(clen, contentLength, bodyStart, body, adjusted, len, ctx)
  {
    if bodyStart.Some? && bodyStart.value <= len { LengthCounts(adjusted, body, bodyStart.value, len, ctx); }
  }

  /** Both together, in terms of the body edits. */
  ghost predicate ClenRight(proto: Proto, clen: ClenResult, contentLength: Option<Field>, unparsed: nat,
                            bodyStart: Option<nat>, body: seq<Lump>, adjusted: seq<Lump>, len: nat, ctx: Ctx)
  {
    ClenChosen(proto, clen, Delta(Fix(body, 0), ctx), contentLength, unparsed, adjusted)
    && ClenCounts(clen, contentLength, bodyStart, body, adjusted, len, ctx)
  }

  lemma BothRight(proto: Proto, clen: ClenResult, bodyDelta: int, contentLength: Option<Field>, unparsed: nat,
                  bodyStart: Option<nat>, body: seq<Lump>, adjusted: seq<Lump>, len: nat, ctx: Ctx)
    requires InRange(adjusted, len) && InRange(body, len) && bodyDelta == Delta(Fix(body, 0), ctx)
    requires clen.Number? ==> bodyStart.Some? && clen.n == Unsigned(len - bodyStart.value + bodyDelta)
    requires ClenChosen(proto, clen, bodyDelta, contentLength, unparsed, adjusted)
    ensures ClenRight(proto, clen, contentLength, unparsed, bodyStart, body, adjusted, len, ctx)
  {
    NumberCounts(clen, bodyDelta, contentLength, bodyStart, body, adjusted, len, ctx);
  }

  /** What a sorted header list deletes is not in the built message, whatever the body list is. */
  lemma HeaderDeletionGone(hdr: seq<Lump>, body: seq<Lump>, p: nat, len: nat, ctx: Ctx)
    requires Sorted(hdr, 0) && InRange(hdr, len) && InRange(body, len) && Deleted(p, hdr)
    ensures p !in KeptOf(Output(Fix(hdr, 0) + Fix(body, 0), 0, len, ctx))
  {
    var fh, fb, e := Fix(hdr, 0), Fix(body, 0), HeaderEnd(hdr);
    FixDisjoint(hdr, 0, len);
    FixDisjoint(body, 0, len);
    RenderEndInRange(fh, 0, len);
    OutputConcat(fh, fb, 0, len, ctx);
    KeptPrefix(Render(fh, 0, ctx), Output(fb, e, len, ctx), p);
    KeptPrefix(Render(fh, 0, ctx), Keep(e, len), p);
    KeptByKeep(e, len, p);
    if p in KeptOf(Output(fb, e, len, ctx)) { KeptBehind(fb, e, len, p, ctx); }
    if p in KeptOf(Output(fh, 0, len, ctx)) { FixedOutputKeepsOnlySurvivors(hdr, 0, 0, len, p, ctx); }
  }

  lemma {:induction false} KeptBehind(l: seq<Lump>, s: nat, len: nat, p: nat, ctx: Ctx)
    requires InRange(l, len) && s <= len && p in KeptOf(Output(l, s, len, ctx))
    ensures s <= p < len
  {
    if l == [] {
      KeptByEnd(s, len, p, ctx);
    } else {
      var t, rest := l[0], l[1..];
      assert l == [t] + rest && t in l;
      if Ignored(t, s) {
        KeptBySkip(t, rest, s, len, p, ctx);
        KeptBehind(rest, s, len, p, ctx);
      } else {
        KeptByStep(t, rest, s, len, p, ctx);
        if !(t.Anchored() && s <= p < t.op.offset) { KeptBehind(rest, Past(t.op, s), len, p, ctx); }
      }
    }
  }

  /** Adjusting Content-Length changes the header list only. */
  lemma AdjustedInRange(st: Lists, e: ClenEdit, number: nat, eoh: Option<nat>, len: nat)
    requires !e.NoEdit? && (eoh.Some? ==> ClenLump(e).op.offset <= eoh.value)
    requires InRange(st.hdr, len) && ClenApplied(st, e, number, eoh, len).Some?
    ensures var st' := ClenApplied(st, e, number, eoh, len).value; st'.body == st.body && InRange(st'.hdr, len)
  {
    var x := ClenLump(e);
    var l, i := InsertSorted(st.hdr, x), SortedIndex(st.hdr, x);
    ClenAppliedIs(st, e, number, eoh, len);
    InsertedWithin(st.hdr, x, len);
    assert l[i] == x;
    ReplacedInRange(l, i, AddAfter(x, 0, Text(ClenText(e, number))), len);
  }

  lemma ClenAppliedIs(st: Lists, e: ClenEdit, number: nat, eoh: Option<nat>, len: nat)
    requires !e.NoEdit? && (eoh.Some? ==> ClenLump(e).op.offset <= eoh.value)
    requires ClenApplied(st, e, number, eoh, len).Some?
    ensures var x := ClenLump(e);
            var l, i := InsertSorted(st.hdr, x), SortedIndex(st.hdr, x);
            x.op.offset + x.Removed() <= len && l[i] == x
            && ClenApplied(st, e, number, eoh, len)
            == Some(Lists(l[i := AddAfter(x, 0, Text(ClenText(e, number)))], st.body))
  {
    InsertedAt(st.hdr, ClenLump(e));
  }

  lemma ReplacedInRange(l: seq<Lump>, i: nat, t: Lump, len: nat)
    requires InRange(l, len) && i < |l| && t.op == l[i].op
    ensures InRange(l[i := t], len)
  {
    forall u | u in l[i := t] && u.Anchored() ensures u.op.offset + u.Removed() <= len {
      assert l[i] in l && (u == t || u in l);
    }
  }

  /** The built message in the three stretches in which it is written. */
  lemma BuiltChars(hdr: seq<Lump>, body: seq<Lump>, start: nat, buf: string, ctx: Ctx)
    requires start <= |buf| && InRange(hdr, |buf|) && InRange(body, |buf|)
    ensures var e1 := RenderEnd(hdr, start);
            var e2 := RenderEnd(body, e1);
            var cells := Output(hdr + body, start, |buf|, ctx);
            e1 <= |buf| && e2 <= |buf|
            && |cells| == |Render(hdr, start, ctx)| + |Render(body, e1, ctx)| + (|buf| - e2)
            && Chars(cells, buf) == Chars(Render(hdr, start, ctx), buf) + Chars(Render(body, e1, ctx), buf) + buf[e2..]
  {
    var e1 := RenderEnd(hdr, start);
    var e2 := RenderEnd(body, e1);
    RenderEndInRange(hdr, start, |buf|);
    RenderEndInRange(body, e1, |buf|);
    OutputConcat(hdr, body, start, |buf|, ctx);
    CharsOfKeep(e2, |buf|, buf);
    var r1, r2, tail := Render(hdr, start, ctx), Render(body, e1, ctx), Keep(e2, |buf|);
    CharsConcat(r2, tail, buf);
    CharsConcat(r1, r2 + tail, buf);
    Assoc(Chars(r1, buf), Chars(r2, buf), buf[e2..]);
  }

  /** Where the header edits end in front of the body edits, announced is written. */
  lemma FencedIsExact(hdr: seq<Lump>, body: seq<Lump>, fence: nat, len: nat, ctx: Ctx)
    requires InRange(hdr, len) && InRange(body, len) && fence <= len
    requires InRange(hdr, fence) && NoneBefore(body, fence)
    ensures |Output(Fix(hdr, 0) + Fix(body, 0), 0, len, ctx)|
            == len + Delta(Fix(hdr, 0), ctx) + Delta(Fix(body, 0), ctx)
  {
    FixDisjoint(hdr, 0, fence);
    RenderEndInRange(Fix(hdr, 0), 0, fence);
    FixDisjoint(body, 0, len);
    FixNoneBefore(body, 0, fence);
    BuiltLength(hdr, body, len, ctx);
    NoneIgnored(Fix(body, 0), 0, HeaderEnd(hdr), ctx);
  }

  lemma {:induction false} DisjointIsFixed(l: seq<Lump>, s: nat)
    requires Disjoint(l, s)
    ensures Fix(l, s) == l
  {
    if l != [] { DisjointIsFixed(l[1..], Past(l[0].op, s)); }
  }
}
