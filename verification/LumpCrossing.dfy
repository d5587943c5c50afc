/** The header list and the body list are measured separately, each from the
    start of the message, but written one after the other. When header edits
    reach into the body, lumps can be lost; this module says exactly when. */
module LumpCrossing {
  import opened LumpTypes
  import opened LumpSpec
  import opened SeqFacts

  /** A measured lump has no effect past `e` that the writing pass would lose. */
  predicate Lost(t: Lump, e: nat, ctx: Ctx) {
    Ignored(t, e) && (LumpText(t, ctx) != "" || t.op.offset + t.Removed() > e)
  }

  predicate NothingLost(l: seq<Lump>, e: nat, ctx: Ctx) {
    forall t :: t in l ==> !Lost(t, e, ctx)
  }

  /** Where the source offset stands when the measured header list is written. */
  function HeaderEnd(hdr: seq<Lump>): nat {
    RenderEnd(Fix(hdr, 0), 0)
  }

  // ----- Concatenation

  lemma {:induction false} RenderConcat(a: seq<Lump>, b: seq<Lump>, s: nat, ctx: Ctx)
    ensures Render(a + b, s, ctx) == Render(a, s, ctx) + Render(b, RenderEnd(a, s), ctx)
    ensures RenderEnd(a + b, s) == RenderEnd(b, RenderEnd(a, s))
  {
    if a == [] {
      assert a + b == b;
    } else {
      ConsConcat(a, b);
      RenderConcat(a[1..], b, if Ignored(a[0], s) then s else Past(a[0].op, s), ctx);
      if !Ignored(a[0], s) {
        Assoc((if a[0].Anchored() then Keep(s, a[0].op.offset) else []) + Puts(LumpText(a[0], ctx)),
              Render(a[1..], Past(a[0].op, s), ctx), Render(b, RenderEnd(a, s), ctx));
      }
    }
  }

  lemma {:induction false} FixConcat(a: seq<Lump>, b: seq<Lump>, s: nat)
    ensures Fix(a + b, s) == Fix(a, s) + Fix(b, RenderEnd(Fix(a, s), s))
  {
    if a == [] {
      assert a + b == b;
    } else {
      ConsConcat(a, b);
      var op := FixedOp(a[0].op, s);
      FixConcat(a[1..], b, Past(op, s));
      Tail(a[0].(op := op), Fix(a[1..], Past(op, s)));
    }
  }

  lemma {:induction false} DeltaConcat(a: seq<Lump>, b: seq<Lump>, ctx: Ctx)
    ensures Delta(a + b, ctx) == Delta(a, ctx) + Delta(b, ctx)
  {
    if a == [] {
      assert a + b == b;
    } else {
      ConsConcat(a, b);
      DeltaConcat(a[1..], b, ctx);
    }
  }

  lemma {:induction false} IgnoredConcat(a: seq<Lump>, b: seq<Lump>, s: nat, ctx: Ctx)
    ensures IgnoredDelta(a + b, s, ctx) == IgnoredDelta(a, s, ctx) + IgnoredDelta(b, RenderEnd(a, s), ctx)
  {
    if a == [] {
      assert a + b == b;
    } else {
      ConsConcat(a, b);
      IgnoredConcat(a[1..], b, if Ignored(a[0], s) then s else Past(a[0].op, s), ctx);
    }
  }

  // ----- Nothing lost: measuring from 0 or from the header end is the same

  /** One lump measured from two starts s < e, rendered from e: either both
      readings are the same, or the ignored one comes to nothing in the other. */
  lemma TwoReadings(t: Lump, s: nat, e: nat, ctx: Ctx)
    requires s < e && !Lost(t.(op := FixedOp(t.op, s)), e, ctx)
    ensures var a, b := t.(op := FixedOp(t.op, s)), t.(op := FixedOp(t.op, e));
            LumpText(a, ctx) == LumpText(b, ctx) && !Ignored(b, e)
            && if t.Anchored() && Ignored(a, e) then
                 Past(a.op, s) <= e && b.op.offset == e && b.Removed() == 0 && LumpText(b, ctx) == ""
               else a == b
  {
  }

  /** The later of two offsets. */
  function Later(s: nat, e: nat): nat {
    if s > e then s else e
  }

  /** What the two readings write is the same if what comes behind them is. */
  lemma SameStep(t: Lump, s: nat, e: nat, restA: seq<Lump>, restB: seq<Lump>, len: nat, ctx: Ctx)
    requires s < e && !Lost(t.(op := FixedOp(t.op, s)), e, ctx)
    requires var m := Later(Past(FixedOp(t.op, s), s), e); Output(restA, m, len, ctx) == Output(restB, m, len, ctx)
    ensures Past(FixedOp(t.op, e), e) == Later(Past(FixedOp(t.op, s), s), e)
    ensures Output([t.(op := FixedOp(t.op, s))] + restA, e, len, ctx)
         == Output([t.(op := FixedOp(t.op, e))] + restB, e, len, ctx)
  {
    var a, b := t.(op := FixedOp(t.op, s)), t.(op := FixedOp(t.op, e));
    TwoReadings(t, s, e, ctx);
    OutputStep(b, restB, e, len, ctx);
    if t.Anchored() && Ignored(a, e) {
      OutputSkip(a, restA, e, len, ctx);
      assert Keep(e, e) + Puts("") == [];
    } else {
      OutputStep(a, restA, e, len, ctx);
    }
  }

  lemma {:induction false} NothingLostMeansSameOutput(l: seq<Lump>, s: nat, e: nat, len: nat, ctx: Ctx)
    requires NothingLost(Fix(l, s), e, ctx)
    ensures var m := Later(s, e); Output(Fix(l, s), m, len, ctx) == Output(Fix(l, m), m, len, ctx)
    decreases |l|
  {
    if l != [] && s < e {
      var t, rest := l[0], l[1..];
      var a, b := t.(op := FixedOp(t.op, s)), t.(op := FixedOp(t.op, e));
      var restA, restB := Fix(rest, Past(a.op, s)), Fix(rest, Past(b.op, e));
      assert Fix(l, s) == [a] + restA && a in Fix(l, s);
      assert forall x :: x in restA ==> x in Fix(l, s);
      TwoReadings(t, s, e, ctx);
      NothingLostMeansSameOutput(rest, Past(a.op, s), e, len, ctx);
      SameStep(t, s, e, restA, restB, len, ctx);
    }
  }

  // ----- Something lost: it shows in the output

  /** Length of the texts the writing pass ignores. */
  function IgnoredText(l: seq<Lump>, s: nat, ctx: Ctx): nat {
    if l == [] then 0
    else if Ignored(l[0], s) then |LumpText(l[0], ctx)| + IgnoredText(l[1..], s, ctx)
    else IgnoredText(l[1..], Past(l[0].op, s), ctx)
  }

  lemma OfKeep(a: nat, b: nat)
    requires a <= b
    ensures KeptOf(Keep(a, b)) == Survivors(a, b, []) && AddedOf(Keep(a, b)) == ""
  {
    KeepRangeNoneDeleted(a, b, []);
    OfKeepRange(a, b, []);
  }

  lemma {:induction false} AddedByOutput(l: seq<Lump>, s: nat, len: nat, ctx: Ctx)
    requires InRange(l, len) && s <= len
    ensures |AddedOf(Output(l, s, len, ctx))| + IgnoredText(l, s, ctx) == |AllText(l, ctx)|
  {
    if l == [] {
      OfKeep(s, len);
      assert Output(l, s, len, ctx) == Keep(s, len);
    } else {
      var t, rest := l[0], l[1..];
      assert t in l && l == [t] + rest;
      if Ignored(t, s) {
        AddedByOutput(rest, s, len, ctx);
      } else {
        AddedByOutput(rest, Past(t.op, s), len, ctx);
        OutputStep(t, rest, s, len, ctx);
        var before := if t.Anchored() then Keep(s, t.op.offset) else [];
        if t.Anchored() { OfKeep(s, t.op.offset); }
        OfPuts(LumpText(t, ctx));
        SplitAdded(before + Puts(LumpText(t, ctx)), Output(rest, Past(t.op, s), len, ctx));
        SplitAdded(before, Puts(LumpText(t, ctx)));
      }
    }
  }

  /** In a measured list everything before a lump that is ignored is ignored too
      (or free text), so its text is missing from the output. */
  lemma {:induction false} LostTextCounts(l: seq<Lump>, s: nat, e: nat, t: Lump, ctx: Ctx)
    requires Disjoint(l, s) && t in l && Ignored(t, e) && LumpText(t, ctx) != ""
    ensures IgnoredText(l, e, ctx) > 0
  {
    if t != l[0] {
      if Ignored(l[0], e) {
        LostTextCounts(l[1..], Past(l[0].op, s), e, t, ctx);
      } else if l[0].Anchored() {
        DisjointFrom(l[1..], Past(l[0].op, s), t);
        assert false;
      } else {
        LostTextCounts(l[1..], s, e, t, ctx);
      }
    }
  }

  lemma {:induction false} DisjointFrom(l: seq<Lump>, s: nat, t: Lump)
    requires Disjoint(l, s) && t in l && t.Anchored()
    ensures s <= t.op.offset
  {
    if t != l[0] { DisjointFrom(l[1..], Past(l[0].op, s), t); }
  }

  lemma KeptPrefix(a: seq<Cell>, b: seq<Cell>, p: nat)
    ensures p in KeptOf(a + b) <==> p in KeptOf(a) || p in KeptOf(b)
  {
    SplitKept(a, b);
  }

  lemma KeptByKeep(a: nat, b: nat, p: nat)
    requires a <= b
    ensures p in KeptOf(Keep(a, b)) <==> a <= p < b
  {
    OfKeep(a, b);
    SurvivorsExactly(a, b, [], p);
  }

  lemma KeptByEnd(s: nat, len: nat, p: nat, ctx: Ctx)
    requires s <= len
    ensures p in KeptOf(Output([], s, len, ctx)) <==> s <= p < len
  {
    KeptByKeep(s, len, p);
    assert Output([], s, len, ctx) == Keep(s, len);
  }

  lemma KeptByStep(t: Lump, l: seq<Lump>, s: nat, len: nat, p: nat, ctx: Ctx)
    requires !Ignored(t, s)
    ensures p in KeptOf(Output([t] + l, s, len, ctx))
       <==> (t.Anchored() && s <= p < t.op.offset) || p in KeptOf(Output(l, Past(t.op, s), len, ctx))
  {
    OutputStep(t, l, s, len, ctx);
    var before := if t.Anchored() then Keep(s, t.op.offset) else [];
    var text := Puts(LumpText(t, ctx));
    OfPuts(LumpText(t, ctx));
    KeptPrefix(before + text, Output(l, Past(t.op, s), len, ctx), p);
    KeptPrefix(before, text, p);
    if t.Anchored() { KeptByKeep(s, t.op.offset, p); }
  }

  /** A disjoint list whose ranges start after `p` leaves `p` in the output. */
  lemma {:induction false} KeepsBeforeRanges(l: seq<Lump>, from: nat, s: nat, len: nat, p: nat, ctx: Ctx)
    requires Disjoint(l, from) && InRange(l, len) && s <= p < from && p < len
    ensures p in KeptOf(Output(l, s, len, ctx))
  {
    if l == [] {
      KeptByEnd(s, len, p, ctx);
    } else {
      var t, rest := l[0], l[1..];
      assert l == [t] + rest;
      KeptByStep(t, rest, s, len, p, ctx);
      if !t.Anchored() { KeepsBeforeRanges(rest, from, s, len, p, ctx); }
    }
  }

  lemma KeptBySkip(t: Lump, l: seq<Lump>, s: nat, len: nat, p: nat, ctx: Ctx)
    requires Ignored(t, s)
    ensures p in KeptOf(Output([t] + l, s, len, ctx)) <==> p in KeptOf(Output(l, s, len, ctx))
  {
    OutputSkip(t, l, s, len, ctx);
  }

  /** A deletion that is ignored leaves its last character in the output. */
  lemma {:induction false} LostDeletionKept(l: seq<Lump>, s: nat, e: nat, len: nat, t: Lump, p: nat, ctx: Ctx)
    requires Disjoint(l, s) && InRange(l, len)
    requires t in l && Ignored(t, e) && e <= p == t.op.offset + t.Removed() - 1
    ensures p in KeptOf(Output(l, e, len, ctx))
  {
    var u, rest := l[0], l[1..];
    assert l == [u] + rest;
    if u == t {
      KeepsBeforeRanges(rest, Past(u.op, s), e, len, p, ctx);
      KeptBySkip(u, rest, e, len, p, ctx);
    } else {
      if u.Anchored() { DisjointFrom(rest, Past(u.op, s), t); }
      assert !u.Anchored() || Ignored(u, e);
      LostDeletionKept(rest, Past(u.op, s), e, len, t, p, ctx);
      if u.Anchored() {
        KeptBySkip(u, rest, e, len, p, ctx);
      } else {
        KeptByStep(u, rest, e, len, p, ctx);
      }
    }
  }

  lemma {:induction false} FixKeepsText(l: seq<Lump>, s: nat, ctx: Ctx)
    ensures AllText(Fix(l, s), ctx) == AllText(l, ctx)
  {
    if l != [] {
      var op := FixedOp(l[0].op, s);
      FixKeepsText(l[1..], Past(op, s), ctx);
      Tail(l[0].(op := op), Fix(l[1..], Past(op, s)));
    }
  }

  lemma {:induction false} DisjointIgnoresNoText(l: seq<Lump>, s: nat, ctx: Ctx)
    requires Disjoint(l, s)
    ensures IgnoredText(l, s, ctx) == 0
  {
    if l != [] { DisjointIgnoresNoText(l[1..], Past(l[0].op, s), ctx); }
  }

  /** What is kept when a list is measured from where it is written is not deleted. */
  lemma {:induction false} FixedOutputKeepsOnlySurvivors(l: seq<Lump>, s: nat, from: nat, len: nat, p: nat, ctx: Ctx)
    requires Sorted(l, from) && InRange(l, len) && s <= len
    requires p in KeptOf(Output(Fix(l, s), s, len, ctx))
    ensures !Deleted(p, l)
    ensures s <= p
  {
    if l == [] {
      KeptByEnd(s, len, p, ctx);
    } else {
      var t, rest := l[0], l[1..];
      assert t in l;
      var t' := t.(op := FixedOp(t.op, s));
      var s' := Past(t'.op, s);
      KeptByStep(t', Fix(rest, s'), s, len, p, ctx);
      if t.Anchored() && s <= p < t'.op.offset {
        NotDeletedBelow(p, rest, t.op.offset);
      } else {
        FixedOutputKeepsOnlySurvivors(rest, s', if t.Anchored() then t.op.offset else from, len, p, ctx);
      }
    }
  }

  lemma {:induction false} FixedRangesAreRequested(l: seq<Lump>, s: nat, t: Lump, p: nat)
    requires t in Fix(l, s) && Deletes(t, p)
    ensures Deleted(p, l)
  {
    var op := FixedOp(l[0].op, s);
    assert Fix(l, s) == [l[0].(op := op)] + Fix(l[1..], Past(op, s));
    if t != l[0].(op := op) { FixedRangesAreRequested(l[1..], Past(op, s), t, p); }
  }

  lemma LostTextShows(l: seq<Lump>, e: nat, len: nat, t: Lump, ctx: Ctx)
    requires InRange(l, len) && e <= len
    requires t in Fix(l, 0) && Ignored(t, e) && LumpText(t, ctx) != ""
    ensures Output(Fix(l, 0), e, len, ctx) != Output(Fix(l, e), e, len, ctx)
  {
    FixDisjoint(l, 0, len);
    FixDisjoint(l, e, len);
    AddedByOutput(Fix(l, 0), e, len, ctx);
    AddedByOutput(Fix(l, e), e, len, ctx);
    DisjointIgnoresNoText(Fix(l, e), e, ctx);
    FixKeepsText(l, 0, ctx);
    FixKeepsText(l, e, ctx);
    LostTextCounts(Fix(l, 0), 0, e, t, ctx);
  }

  lemma LostDeletionShows(l: seq<Lump>, from: nat, e: nat, len: nat, t: Lump, ctx: Ctx)
    requires Sorted(l, from) && InRange(l, len) && e <= len
    requires t in Fix(l, 0) && Ignored(t, e) && t.op.offset + t.Removed() > e
    ensures Output(Fix(l, 0), e, len, ctx) != Output(Fix(l, e), e, len, ctx)
  {
    var p := t.op.offset + t.Removed() - 1;
    FixDisjoint(l, 0, len);
    LostDeletionKept(Fix(l, 0), 0, e, len, t, p, ctx);
    FixedRangesAreRequested(l, 0, t, p);
    if p in KeptOf(Output(Fix(l, e), e, len, ctx)) {
      FixedOutputKeepsOnlySurvivors(l, e, from, len, p, ctx);
    }
  }

  // ----- Main theorems for the two lists

  lemma OutputConcat(a: seq<Lump>, b: seq<Lump>, s: nat, len: nat, ctx: Ctx)
    ensures Output(a + b, s, len, ctx) == Render(a, s, ctx) + Output(b, RenderEnd(a, s), len, ctx)
  {
    RenderConcat(a, b, s, ctx);
    var e := RenderEnd(b, RenderEnd(a, s));
    Assoc(Render(a, s, ctx), Render(b, RenderEnd(a, s), ctx), if e <= len then Keep(e, len) else []);
  }

  /** Both ways of laying the two lists out share what the header list writes. */
  lemma JointLayout(hdr: seq<Lump>, body: seq<Lump>, len: nat, ctx: Ctx)
    ensures var prefix, e := Render(Fix(hdr, 0), 0, ctx), HeaderEnd(hdr);
            Output(Fix(hdr, 0) + Fix(body, 0), 0, len, ctx) == prefix + Output(Fix(body, 0), e, len, ctx)
            && Output(Fix(hdr + body, 0), 0, len, ctx) == prefix + Output(Fix(body, e), e, len, ctx)
  {
    OutputConcat(Fix(hdr, 0), Fix(body, 0), 0, len, ctx);
    OutputConcat(Fix(hdr, 0), Fix(body, HeaderEnd(hdr)), 0, len, ctx);
    FixConcat(hdr, body, 0);
  }

  /** The message built from both lists means what both lists request if and only
      if no body lump is lost behind the end of the header edits. */
  lemma BuiltMeaningIff(hdr: seq<Lump>, body: seq<Lump>, len: nat, ctx: Ctx)
    requires Sorted(hdr + body, 0) && InRange(hdr + body, len)
    ensures Output(Fix(hdr, 0) + Fix(body, 0), 0, len, ctx) == Meaning(hdr + body, 0, len, hdr + body, ctx)
       <==> NothingLost(Fix(body, 0), HeaderEnd(hdr), ctx)
  {
    var e := HeaderEnd(hdr);
    var measured, joint := Output(Fix(body, 0), e, len, ctx), Output(Fix(body, e), e, len, ctx);
    assert InRange(body, len) by { assert forall t :: t in body ==> t in hdr + body; }
    assert InRange(hdr, len) by { assert forall t :: t in hdr ==> t in hdr + body; }
    FixDisjoint(hdr, 0, len);
    RenderEndInRange(Fix(hdr, 0), 0, len);
    JointLayout(hdr, body, len, ctx);
    RenderedMeaning(hdr + body, len, ctx);
    SortedTail(hdr, body, 0);
    if NothingLost(Fix(body, 0), e, ctx) {
      NothingLostMeansSameOutput(body, 0, e, len, ctx);
    } else {
      var t :| t in Fix(body, 0) && Lost(t, e, ctx);
      if LumpText(t, ctx) != "" {
        LostTextShows(body, e, len, t, ctx);
      } else {
        LostDeletionShows(body, 0, e, len, t, ctx);
      }
      SamePrefix(Render(Fix(hdr, 0), 0, ctx), measured, joint);
    }
  }

  lemma SamePrefix(a: seq<Cell>, b: seq<Cell>, c: seq<Cell>)
    requires b != c
    ensures a + b != a + c
  {
    assert (a + b)[|a|..] == b && (a + c)[|a|..] == c;
  }

  lemma {:induction false} SortedTail(a: seq<Lump>, b: seq<Lump>, from: nat)
    requires Sorted(a + b, from)
    ensures Sorted(a, from) && Sorted(b, from)
    decreases |a|
  {
    if a == [] {
      assert a + b == b;
    } else {
      ConsConcat(a, b);
      if a[0].Anchored() {
        SortedTail(a[1..], b, a[0].op.offset);
        SortedWeaken(b, a[0].op.offset, from);
      } else {
        SortedTail(a[1..], b, from);
      }
    }
  }

  lemma {:induction false} SortedWeaken(l: seq<Lump>, from: nat, lower: nat)
    requires Sorted(l, from) && lower <= from
    ensures Sorted(l, lower)
  {
    if l != [] && !l[0].Anchored() { SortedWeaken(l[1..], from, lower); }
  }

  /** The length the two passes agree on, exactly: the characters written are the
      ones announced, less the net length of the ignored body lumps. */
  lemma BuiltLength(hdr: seq<Lump>, body: seq<Lump>, len: nat, ctx: Ctx)
    requires InRange(hdr, len) && InRange(body, len)
    ensures |Output(Fix(hdr, 0) + Fix(body, 0), 0, len, ctx)|
         == len + Delta(Fix(hdr, 0), ctx) + Delta(Fix(body, 0), ctx) - IgnoredDelta(Fix(body, 0), HeaderEnd(hdr), ctx)
  {
    FixDisjoint(hdr, 0, len);
    FixDisjoint(body, 0, len);
    var h, b := Fix(hdr, 0), Fix(body, 0);
    WrittenLength(h + b, 0, len, ctx);
    DeltaConcat(h, b, ctx);
    IgnoredConcat(h, b, 0, ctx);
    DisjointIgnoresNothing(h, 0, ctx);
  }

  /** Exactly when the writing stays inside the buffer that the measuring had allocated: the
      ignored body lumps would not, together, have made the message shorter. */
  lemma WritesFitIff(hdr: seq<Lump>, body: seq<Lump>, len: nat, ctx: Ctx)
    requires InRange(hdr, len) && InRange(body, len)
    ensures |Output(Fix(hdr, 0) + Fix(body, 0), 0, len, ctx)| <= len + Delta(Fix(hdr, 0), ctx)
            + Delta(Fix(body, 0), ctx)
       <==> IgnoredDelta(Fix(body, 0), HeaderEnd(hdr), ctx) >= 0
  {
    BuiltLength(hdr, body, len, ctx);
  }

  lemma {:induction false} NothingLostNothingUncounted(l: seq<Lump>, s: nat, e: nat, ctx: Ctx)
    requires Disjoint(l, s) && s <= e && NothingLost(l, e, ctx)
    ensures (forall t :: t in l && Ignored(t, e) ==> t.Removed() == 0) ==> IgnoredDelta(l, e, ctx) == 0
    ensures IgnoredDelta(l, e, ctx) <= 0
  {
    if l != [] {
      assert l[0] in l && !Lost(l[0], e, ctx);
      assert forall t :: t in l[1..] ==> t in l;
      var s' := Past(l[0].op, s);
      if Ignored(l[0], e) || !l[0].Anchored() {
        NothingLostNothingUncounted(l[1..], s', e, ctx);
      } else {
        DisjointIgnoresNothing(l[1..], s', ctx);
      }
    }
  }

  /** A header deletion of [1, 5) and a body anchor requested at 3, "x" attached:
      the text is announced and never written. */
  lemma CrossingDeletionLosesText(ctx: Ctx)
    ensures var hdr := [Lump(Del(1, 4), [], [])];
            var body := [Lump(Nop(3), [], [Text("x")])];
            Sorted(hdr + body, 0) && InRange(hdr + body, 6)
            && |Output(Fix(hdr, 0) + Fix(body, 0), 0, 6, ctx)| == 2
            && 6 + Delta(Fix(hdr, 0), ctx) + Delta(Fix(body, 0), ctx) == 3
  {
    var hdr := [Lump(Del(1, 4), [], [])];
    var body := [Lump(Nop(3), [], [Text("x")])];
    assert hdr + body == [hdr[0], body[0]];
    assert Fix(hdr, 0) == hdr;
    assert Fix(body, 0) == body;
    assert LumpText(hdr[0], ctx) == "";
    assert ChainText([Text("x")], ctx) == "x";
    assert LumpText(body[0], ctx) == "x";
    assert Delta(body, ctx) == 1;
    BuiltLength(hdr, body, 6, ctx);
    assert RenderEnd(hdr, 0) == 5;
    assert IgnoredDelta(body, 5, ctx) == 1;
  }

  /** A header deletion of [1, 5) and a body deletion of [3, 4) inside it: nothing is lost,
      but the second deletion is counted and then ignored, so one character is announced
      and two are written. */
  lemma CrossingDeletionOverflows(ctx: Ctx)
    ensures var hdr := [Lump(Del(1, 4), [], [])];
            var body := [Lump(Del(3, 1), [], [])];
            Sorted(hdr + body, 0) && InRange(hdr + body, 6) && NothingLost(Fix(body, 0), HeaderEnd(hdr), ctx)
            && |Output(Fix(hdr, 0) + Fix(body, 0), 0, 6, ctx)| == 2
            && 6 + Delta(Fix(hdr, 0), ctx) + Delta(Fix(body, 0), ctx) == 1
  {
    var hdr := [Lump(Del(1, 4), [], [])];
    var body := [Lump(Del(3, 1), [], [])];
    assert hdr + body == [hdr[0], body[0]];
    assert Fix(hdr, 0) == hdr;
    assert Fix(body, 0) == body;
    assert LumpText(hdr[0], ctx) == "" && LumpText(body[0], ctx) == "";
    assert Delta(body, ctx) == -1;
    BuiltLength(hdr, body, 6, ctx);
    assert RenderEnd(hdr, 0) == 5;
    assert IgnoredDelta(body, 5, ctx) == -1;
  }
}
