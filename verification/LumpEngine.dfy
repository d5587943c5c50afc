/** The lump lists as the program keeps them: inserted into, measured in place
    and written out into a buffer. */
module LumpEngine {
  import opened LumpTypes
  import opened LumpSpec
  import opened LumpCrossing
  import opened LumpCalls
  import opened Buffers
  import opened SeqFacts

  // ----- The length pass over one chain

  /** The before and after loops of the length pass. */
  method ChainLen(chain: seq<Piece>, ctx: Ctx) returns (n: nat)
    ensures n == |ChainText(chain, ctx)|
  {
    n := 0;
    var i := 0;
    while i < |chain|
      invariant 0 <= i <= |chain|
      invariant n + |ChainText(chain[i..], ctx)| == |ChainText(chain, ctx)|
    {
      match chain[i] {
        case Text(v) => n := n + |v|;
        case Subst(k) =>
          SubstLenIsTextLength(k, ctx);
          n := n + SubstLen(k, ctx);
        case Opt(c) =>
          if !Holds(c, ctx) { return; }
      }
      i := i + 1;
    }
  }

  /** One round of the length pass: what the lump adds to the length, its range
      after fixing an overlap, and the new source offset. */
  method MeasureLump(t: Lump, s: nat, ctx: Ctx) returns (n: int, op: Op, next: nat)
    ensures op == FixedOp(t.op, s) && next == Past(op, s)
    ensures n == |LumpText(t, ctx)| - t.(op := op).Removed()
  {
    n, op, next := 0, t.op, s;
    if Disabled(t, ctx) { return; }
    var before := ChainLen(t.before, ctx);
    match t.op {
      case Insert(Text(v)) => n := |v|;
      case Insert(Subst(k)) =>
        SubstLenIsTextLength(k, ctx);
        n := SubstLen(k, ctx);
      case Insert(Opt(_)) =>
      case Del(o, len) =>
        if o < s {
          op := Del(s, if len > s - o then len - (s - o) else 0);
        }
        next := op.offset + op.len;
        n := 0 - op.len;
      case Nop(o) =>
        if o < s {
          op := Nop(s);
        } else {
          next := o;
        }
    }
    var after := ChainLen(t.after, ctx);
    n := before + n + after;
  }

  // ----- Writing text

  /** The characters of rendered cells. */
  function Chars(cells: seq<Cell>, buf: string): (r: string)
    ensures |r| == |cells|
  {
    seq(|cells|, i requires 0 <= i < |cells| => CharOf(cells[i], buf))
  }

  function CharOf(cell: Cell, buf: string): char {
    match cell
    case Kept(p) => if p < |buf| then buf[p] else '\0'
    case Put(c) => c
  }

  lemma CharsConcat(a: seq<Cell>, b: seq<Cell>, buf: string)
    ensures Chars(a + b, buf) == Chars(a, buf) + Chars(b, buf)
  {
  }

  lemma CharsOfPuts(s: string, buf: string)
    ensures Chars(Puts(s), buf) == s
  {
  }

  lemma CharsOfKeep(a: nat, b: nat, buf: string)
    requires a <= b <= |buf|
    ensures Chars(Keep(a, b), buf) == buf[a..b]
  {
  }

  method CopyBracketed(dst: array<char>, offset: nat, s: string, brackets: bool) returns (next: nat)
    requires offset + |Bracketed(s, brackets)| <= dst.Length
    modifies dst
    ensures next == offset + |Bracketed(s, brackets)|
    ensures dst[..next] == old(dst[..offset]) + Bracketed(s, brackets)
  {
    next := offset;
    if brackets { next := Copy(dst, next, "["); }
    next := Copy(dst, next, s);
    if brackets {
      next := Copy(dst, next, "]");
      Assoc4(old(dst[..offset]), "[", s, "]");
    }
  }

  /** SUBST_LUMP: writes a substitution piece by piece. */
  method CopySubst(dst: array<char>, offset: nat, kind: SubstKind, ctx: Ctx) returns (next: nat)
    requires offset + |SubstText(kind, ctx)| <= dst.Length
    modifies dst
    ensures next == offset + |SubstText(kind, ctx)|
    ensures dst[..next] == old(dst[..offset]) + SubstText(kind, ctx)
  {
    next := offset;
    match kind {
      case SubstNop =>
      case RcvIp =>
        if ctx.bind.Some? {
          next := CopyBracketed(dst, next, ctx.bind.value.addressStr, !ctx.bind.value.address.inet);
        }
      case RcvPort =>
        if ctx.bind.Some? { next := Copy(dst, next, ctx.bind.value.portNoStr); }
      case RcvProto =>
        if ctx.bind.Some? { next := Copy(dst, next, ProtoText(ctx.bind.value.proto)); }
      case RcvAll =>
        if ctx.bind.Some? {
          var sock := ctx.bind.value;
          next := CopyAll(dst, next, sock.addressStr, !sock.address.inet, sock.portNo != SIP_PORT, sock.portNoStr,
                          sock.proto);
        }
      case SndIp =>
        if ctx.sendSock.Some? { next := CopyBracketed(dst, next, SendAddress(ctx), SendBrackets(ctx)); }
      case SndPort =>
        if ctx.sendSock.Some? { next := Copy(dst, next, SendPort(ctx)); }
      case SndProto =>
        if ctx.sendSock.Some? { next := Copy(dst, next, ProtoText(ctx.sendSock.value.proto)); }
      case SndAll =>
        if ctx.sendSock.Some? {
          next := CopyAll(dst, next, SendAddress(ctx), SendBrackets(ctx), SendShowsPort(ctx), SendPort(ctx),
                          ctx.sendSock.value.proto);
        }
    }
  }

  method CopyAll(dst: array<char>, offset: nat, address: string, brackets: bool, showPort: bool, port: string,
                 proto: Proto)
    returns (next: nat)
    requires offset + |AddressAndPort(address, brackets, showPort, port, proto)| <= dst.Length
    modifies dst
    ensures next == offset + |AddressAndPort(address, brackets, showPort, port, proto)|
    ensures dst[..next] == old(dst[..offset]) + AddressAndPort(address, brackets, showPort, port, proto)
  {
    ghost var a, p := Bracketed(address, brackets), if showPort then ":" + port else "";
    next := CopyBracketed(dst, offset, address, brackets);
    next := CopyPort(dst, next, showPort, port);
    Assoc(old(dst[..offset]), a, p);
    next := Copy(dst, next, TransportText(proto));
    Assoc(old(dst[..offset]), a + p, TransportText(proto));
  }

  method CopyPort(dst: array<char>, offset: nat, showPort: bool, port: string) returns (next: nat)
    requires offset + (if showPort then 1 + |port| else 0) <= dst.Length
    modifies dst
    ensures next == offset + (if showPort then 1 + |port| else 0)
    ensures dst[..next] == old(dst[..offset]) + (if showPort then ":" + port else "")
  {
    next := offset;
    if showPort {
      next := Copy(dst, next, ":");
      next := Copy(dst, next, port);
      Assoc(old(dst[..offset]), ":", port);
    }
  }

  /** The before and after loops of the writing pass. */
  method CopyChain(dst: array<char>, offset: nat, chain: seq<Piece>, ctx: Ctx) returns (next: nat)
    requires offset + |ChainText(chain, ctx)| <= dst.Length
    modifies dst
    ensures next == offset + |ChainText(chain, ctx)|
    ensures dst[..next] == old(dst[..offset]) + ChainText(chain, ctx)
  {
    next := offset;
    var i := 0;
    while i < |chain|
      invariant 0 <= i <= |chain| && offset <= next
      invariant next + |ChainText(chain[i..], ctx)| == offset + |ChainText(chain, ctx)|
      invariant dst[..next] + ChainText(chain[i..], ctx) == old(dst[..offset]) + ChainText(chain, ctx)
    {
      ghost var rest := ChainText(chain[i + 1..], ctx);
      ghost var done := dst[..next];
      match chain[i] {
        case Text(v) =>
          next := Copy(dst, next, v);
          Assoc(done, v, rest);
        case Subst(k) =>
          next := CopySubst(dst, next, k, ctx);
          Assoc(done, SubstText(k, ctx), rest);
        case Opt(c) =>
          if !Holds(c, ctx) { return; }
      }
      i := i + 1;
    }
  }

  /** Everything one lump adds: before chain, main part, after chain. */
  method CopyLump(dst: array<char>, offset: nat, t: Lump, ctx: Ctx) returns (next: nat)
    requires offset + |LumpText(t, ctx)| <= dst.Length
    modifies dst
    ensures next == offset + |LumpText(t, ctx)|
    ensures dst[..next] == old(dst[..offset]) + LumpText(t, ctx)
  {
    if Disabled(t, ctx) { return offset; }
    next := CopyChain(dst, offset, t.before, ctx);
    ghost var done := dst[..next];
    match t.op {
      case Insert(Text(v)) => next := Copy(dst, next, v);
      case Insert(Subst(k)) => next := CopySubst(dst, next, k, ctx);
      case _ =>
    }
    assert dst[..next] == done + MainText(t.op, ctx);
    next := CopyChain(dst, next, t.after, ctx);
    Assoc4(old(dst[..offset]), ChainText(t.before, ctx), MainText(t.op, ctx), ChainText(t.after, ctx));
  }

  /** One round of process_lumps. */
  method ProcessLump(t: Lump, buf: string, ctx: Ctx, dst: array<char>, newOffset: nat, origOffset: nat)
    returns (offset: nat, sOffset: nat)
    requires t.Anchored() ==> t.op.offset <= |buf|
    requires !Ignored(t, origOffset)
    requires newOffset + |Gap(t, origOffset)| + |LumpText(t, ctx)| <= dst.Length
    modifies dst
    ensures offset == newOffset + |Gap(t, origOffset)| + |LumpText(t, ctx)| && sOffset == Past(t.op, origOffset)
    ensures dst[..offset] == old(dst[..newOffset]) + (Chars(Gap(t, origOffset), buf) + LumpText(t, ctx))
  {
    offset, sOffset := newOffset, origOffset;
    if t.Anchored() {
      CharsOfKeep(sOffset, t.op.offset, buf);
      offset := Copy(dst, offset, buf[sOffset..t.op.offset]);
      sOffset := t.op.offset;
    }
    assert dst[..offset] == old(dst[..newOffset]) + Chars(Gap(t, origOffset), buf);
    offset := CopyLump(dst, offset, t, ctx);
    Assoc(old(dst[..newOffset]), Chars(Gap(t, origOffset), buf), LumpText(t, ctx));
    if t.op.Del? { sOffset := sOffset + t.op.len; }
  }

  /** What is copied in front of a lump. */
  function Gap(t: Lump, s: nat): seq<Cell>
    requires !Ignored(t, s)
  {
    if t.Anchored() then Keep(s, t.op.offset) else []
  }

  /** process_lumps: writes one measured list, copying the original up to each
      anchored lump and skipping what is deleted. */
  method ProcessLumps(lumps: seq<Lump>, buf: string, ctx: Ctx, dst: array<char>, newOffset: nat, origOffset: nat)
    returns (offset: nat, sOffset: nat)
    requires InRange(lumps, |buf|) && origOffset <= |buf|
    requires newOffset + |Render(lumps, origOffset, ctx)| <= dst.Length
    modifies dst
    ensures offset == newOffset + |Render(lumps, origOffset, ctx)|
    ensures sOffset == RenderEnd(lumps, origOffset)
    ensures dst[..offset] == old(dst[..newOffset]) + Chars(Render(lumps, origOffset, ctx), buf)
  {
    offset, sOffset := newOffset, origOffset;
    var i := 0;
    ghost var before := dst[..newOffset];
    while i < |lumps|
      invariant 0 <= i <= |lumps| && offset <= dst.Length
      invariant Rendering(lumps[i..], sOffset, dst[..offset], lumps, origOffset, before, buf, ctx)
    {
      var t := lumps[i];
      SplitAt(lumps, i);
      RenderingNext(t, lumps[i + 1..], sOffset, dst[..offset], lumps, origOffset, before, buf, ctx);
      if !(t.Anchored() && sOffset > t.op.offset) {
        offset, sOffset := ProcessLump(t, buf, ctx, dst, offset, sOffset);
      }
      i := i + 1;
    }
    assert lumps[i..] == [] && dst[..offset] + "" == dst[..offset];
  }

  /** How far process_lumps has come: what is written, and what is still to be rendered. */
  ghost predicate Rendering(todo: seq<Lump>, s: nat, done: string, lumps: seq<Lump>, start: nat, before: string,
                            buf: string, ctx: Ctx)
  {
    InRange(todo, |buf|) && s <= |buf| && RenderEnd(todo, s) == RenderEnd(lumps, start)
    && done + Chars(Render(todo, s, ctx), buf) == before + Chars(Render(lumps, start, ctx), buf)
  }

  lemma RenderingNext(t: Lump, todo: seq<Lump>, s: nat, done: string, lumps: seq<Lump>, start: nat, before: string,
                      buf: string, ctx: Ctx)
    requires Rendering([t] + todo, s, done, lumps, start, before, buf, ctx)
    ensures t.Anchored() ==> t.op.offset <= |buf|
    ensures if Ignored(t, s) then Rendering(todo, s, done, lumps, start, before, buf, ctx)
            else
              |done| + |Gap(t, s)| + |LumpText(t, ctx)| <= |before| + |Render(lumps, start, ctx)|
              && Rendering(todo, Past(t.op, s), done + (Chars(Gap(t, s), buf) + LumpText(t, ctx)), lumps, start, before,
                           buf, ctx)
  {
    Tail(t, todo);
    assert t in [t] + todo && forall x :: x in todo ==> x in [t] + todo;
    if !Ignored(t, s) {
      RenderStep(t, todo, s, buf, ctx);
      Assoc(done, Chars(Gap(t, s), buf) + LumpText(t, ctx), Chars(Render(todo, Past(t.op, s), ctx), buf));
    }
  }

  lemma RenderStep(t: Lump, l: seq<Lump>, s: nat, buf: string, ctx: Ctx)
    requires !Ignored(t, s)
    ensures Render([t] + l, s, ctx) == Gap(t, s) + Puts(LumpText(t, ctx)) + Render(l, Past(t.op, s), ctx)
    ensures Chars(Render([t] + l, s, ctx), buf)
         == Chars(Gap(t, s), buf) + LumpText(t, ctx) + Chars(Render(l, Past(t.op, s), ctx), buf)
  {
    Tail(t, l);
    var text, rest := Puts(LumpText(t, ctx)), Render(l, Past(t.op, s), ctx);
    CharsOfPuts(LumpText(t, ctx), buf);
    CharsConcat(Gap(t, s) + text, rest, buf);
    CharsConcat(Gap(t, s), text, buf);
  }

  // ----- One lump list

  /** Where InsertSorted puts a lump. */
  function SortedIndex(l: seq<Lump>, x: Lump): (i: nat)
    requires x.Anchored()
    ensures i <= |l|
  {
    if l == [] || (l[0].Anchored() && l[0].op.offset > x.op.offset) then 0 else 1 + SortedIndex(l[1..], x)
  }

  lemma {:induction false} InsertedAt(l: seq<Lump>, x: Lump)
    requires x.Anchored()
    ensures InsertSorted(l, x) == l[..SortedIndex(l, x)] + [x] + l[SortedIndex(l, x)..]
  {
    if l == [] || (l[0].Anchored() && l[0].op.offset > x.op.offset) {
      assert l[..0] + [x] + l[0..] == [x] + l;
    } else {
      InsertedAt(l[1..], x);
      OneFurther(l, x, SortedIndex(l[1..], x));
    }
  }

  lemma OneFurther(l: seq<Lump>, x: Lump, i: nat)
    requires i < |l|
    ensures l[..i + 1] + [x] + l[i + 1..] == [l[0]] + (l[1..][..i] + [x] + l[1..][i..])
  {
    assert l[..i + 1] == [l[0]] + l[1..][..i];
  }

  lemma FreeAppended(l: seq<Lump>, text: string, s: nat, ctx: Ctx)
    ensures Render(l + [Free(text)], s, ctx) == Render(l, s, ctx) + Puts(text)
    ensures RenderEnd(l + [Free(text)], s) == RenderEnd(l, s)
  {
    RenderConcat(l, [Free(text)], s, ctx);
    FreeAlone(text, RenderEnd(l, s), ctx);
  }

  lemma FreeAlone(text: string, s: nat, ctx: Ctx)
    ensures LumpText(Free(text), ctx) == text
    ensures Render([Free(text)], s, ctx) == Puts(text) && RenderEnd([Free(text)], s) == s
  {
    assert [Free(text)][1..] == [];
    assert LumpText(Free(text), ctx) == "" + text + "" == text;
    assert [] + Puts(text) + [] == Puts(text);
  }

  lemma FreePrepended(l: seq<Lump>, text: string, s: nat, ctx: Ctx)
    ensures Render([Free(text)] + l, s, ctx) == Puts(text) + Render(l, s, ctx)
  {
    RenderConcat([Free(text)], l, s, ctx);
    FreeAlone(text, s, ctx);
  }

  class LumpList {
    var lumps: seq<Lump>

    constructor ()
      ensures lumps == []
    {
      lumps := [];
    }

    /** The sorted insertion shared by del_lump and anchor_lump. */
    method InsertOrdered(x: Lump) returns (i: nat)
      requires x.Anchored()
      modifies this
      ensures lumps == InsertSorted(old(lumps), x)
      ensures i == SortedIndex(old(lumps), x) && i < |lumps| && lumps[i] == x
    {
      i := 0;
      while i < |lumps| && !(lumps[i].Anchored() && lumps[i].op.offset > x.op.offset)
        invariant 0 <= i <= |lumps| && lumps == old(lumps)
        invariant i + SortedIndex(lumps[i..], x) == SortedIndex(lumps, x)
      {
        assert lumps[i..][1..] == lumps[i + 1..];
        i := i + 1;
      }
      InsertedAt(lumps, x);
      lumps := lumps[..i] + [x] + lumps[i..];
    }

    /** append_new_lump: the text is written behind everything the list has written. */
    method AppendNew(text: string)
      modifies this
      ensures lumps == old(lumps) + [Free(text)]
      ensures forall s: nat, ctx ::
                Render(lumps, s, ctx) == Render(old(lumps), s, ctx) + Puts(text)
                && RenderEnd(lumps, s) == RenderEnd(old(lumps), s)
    {
      forall s: nat, ctx
        ensures Render(lumps + [Free(text)], s, ctx) == Render(lumps, s, ctx) + Puts(text)
                && RenderEnd(lumps + [Free(text)], s) == RenderEnd(lumps, s)
      {
        FreeAppended(lumps, text, s, ctx);
      }
      lumps := lumps + [Free(text)];
    }

    /** insert_new_lump: the text is written in front of everything the list writes. */
    method InsertNew(text: string)
      modifies this
      ensures lumps == [Free(text)] + old(lumps)
      ensures forall s: nat, ctx :: Render(lumps, s, ctx) == Puts(text) + Render(old(lumps), s, ctx)
    {
      forall s: nat, ctx ensures Render([Free(text)] + lumps, s, ctx) == Puts(text) + Render(lumps, s, ctx) {
        FreePrepended(lumps, text, s, ctx);
      }
      lumps := [Free(text)] + lumps;
    }

    /** insert_new_lump_after, insert_subst_lump_after, insert_cond_lump_after: the piece is
        written at its place behind the lump; nothing else is written differently, unless the
        piece is a condition that does not hold. */
    method InsertAfter(i: nat, depth: nat, piece: Piece)
      requires i < |lumps| && depth <= |lumps[i].after|
      modifies this
      ensures lumps == old(lumps)[i := AddAfter(old(lumps)[i], depth, piece)]
      ensures forall ctx ::
                ChainText(lumps[i].after, ctx) == TextWith(old(lumps)[i].after, depth, piece, ctx)
                && ChainText(lumps[i].before, ctx) == ChainText(old(lumps)[i].before, ctx)
                && MainText(lumps[i].op, ctx) == MainText(old(lumps)[i].op, ctx)
    {
      forall ctx
        ensures ChainText(AddAfter(lumps[i], depth, piece).after, ctx) == TextWith(lumps[i].after, depth, piece, ctx) {
        PieceInserted(lumps[i].after, depth, piece, ctx);
      }
      lumps := lumps[i := lumps[i].(after := lumps[i].after[..depth] + [piece] + lumps[i].after[depth..])];
    }

    /** insert_new_lump_before, insert_subst_lump_before, insert_cond_lump_before: at depth 0
        the piece is written in front of all that was inserted before the lump earlier. */
    method InsertBefore(i: nat, depth: nat, piece: Piece)
      requires i < |lumps| && depth <= |lumps[i].before|
      modifies this
      ensures lumps == old(lumps)[i := AddBefore(old(lumps)[i], depth, piece)]
      ensures forall ctx ::
                ChainText(lumps[i].before, ctx) == TextWith(old(lumps)[i].before, depth, piece, ctx)
                && ChainText(lumps[i].after, ctx) == ChainText(old(lumps)[i].after, ctx)
                && MainText(lumps[i].op, ctx) == MainText(old(lumps)[i].op, ctx)
    {
      forall ctx
        ensures ChainText(AddBefore(lumps[i], depth, piece).before, ctx)
                == TextWith(lumps[i].before, depth, piece, ctx) {
        PieceInserted(lumps[i].before, depth, piece, ctx);
      }
      lumps := lumps[i := lumps[i].(before := lumps[i].before[..depth] + [piece] + lumps[i].before[depth..])];
    }

    /** lumps_len: computes the change in length and fixes overlapping ranges in
        place. */
    method LumpsLen(ctx: Ctx) returns (newLen: int)
      modifies this
      ensures lumps == Fix(old(lumps), 0)
      ensures newLen == Delta(lumps, ctx)
    {
      var sOffset: nat := 0;
      newLen := 0;
      var i := 0;
      while i < |lumps|
        invariant 0 <= i <= |lumps| && |lumps| == |old(lumps)|
        invariant lumps[i..] == old(lumps)[i..]
        invariant lumps[..i] + Fix(lumps[i..], sOffset) == Fix(old(lumps), 0)
        invariant newLen + Delta(Fix(lumps[i..], sOffset), ctx) == Delta(Fix(old(lumps), 0), ctx)
      {
        var t := lumps[i];
        ghost var head, tail := lumps[..i], lumps[i + 1..];
        SplitAt(lumps, i);
        var n, op, next := MeasureLump(t, sOffset, ctx);
        FixStep(t, tail, sOffset, ctx);
        newLen := newLen + n;
        lumps := lumps[i := t.(op := op)];
        sOffset := next;
        SplitAt(lumps, i);
        assert lumps[..i] == head && lumps[i + 1..] == tail;
        Assoc(head, [t.(op := op)], Fix(tail, sOffset));
        i := i + 1;
      }
      assert lumps[..i] == lumps;
    }
  }

  lemma FixStep(t: Lump, tail: seq<Lump>, s: nat, ctx: Ctx)
    ensures var t' := t.(op := FixedOp(t.op, s));
            var rest := Fix(tail, Past(t'.op, s));
            Fix([t] + tail, s) == [t'] + rest
            && Delta(Fix([t] + tail, s), ctx) == |LumpText(t, ctx)| - t'.Removed() + Delta(rest, ctx)
  {
    var t' := t.(op := FixedOp(t.op, s));
    Tail(t, tail);
    assert LumpText(t', ctx) == LumpText(t, ctx);
    Tail(t', Fix(tail, Past(t'.op, s)));
  }
}
