/** What a lump list means, what the length pass does to it, what the writing
    pass emits, and why these agree. */
module LumpSpec {
  import opened LumpTypes
  import opened SeqFacts

  /** One character of a rendered message: kept from the original at a position,
      or put there by a lump. */
  datatype Cell = Kept(pos: nat) | Put(c: char)

  function Puts(s: string): (r: seq<Cell>)
    ensures |r| == |s| && forall i :: 0 <= i < |s| ==> r[i] == Put(s[i])
  {
    seq(|s|, i requires 0 <= i < |s| => Put(s[i]))
  }

  function Keep(a: nat, b: nat): (r: seq<Cell>)
    requires a <= b
    ensures |r| == b - a && forall i :: 0 <= i < b - a ==> r[i] == Kept(a + i)
  {
    seq(b - a, i requires 0 <= i < b - a => Kept(a + i))
  }

  // ----- Lists as callers leave them

  /** Anchored lumps (deletions and anchors) stand in order of their offsets,
      none before `from`; free insertions stand anywhere. */
  predicate Sorted(l: seq<Lump>, from: nat) {
    l == [] ||
    if l[0].Anchored() then from <= l[0].op.offset && Sorted(l[1..], l[0].op.offset)
    else Sorted(l[1..], from)
  }

  predicate InRange(l: seq<Lump>, len: nat) {
    forall t :: t in l && t.Anchored() ==> t.op.offset + t.Removed() <= len
  }

  predicate Deletes(t: Lump, p: nat) {
    t.op.Del? && t.op.offset <= p < t.op.offset + t.op.len
  }

  /** The union of the deletion ranges. */
  predicate Deleted(p: nat, l: seq<Lump>) {
    l != [] && (Deletes(l[0], p) || Deleted(p, l[1..]))
  }

  // ----- The reference meaning of a list

  /** The original characters of [a, b) that no lump of `d` deletes. */
  function KeepRange(a: nat, b: nat, d: seq<Lump>): seq<Cell>
    requires a <= b
    decreases b - a
  {
    if a == b then []
    else (if Deleted(a, d) then [] else [Kept(a)]) + KeepRange(a + 1, b, d)
  }

  /** Walk the original from `pos`: before each anchored lump stand the surviving
      characters up to its requested offset, then its text; deletion is decided
      only by the union of the ranges of `d`. */
  function Meaning(l: seq<Lump>, pos: nat, len: nat, d: seq<Lump>, ctx: Ctx): seq<Cell>
    requires pos <= len && Sorted(l, pos) && InRange(l, len)
    decreases |l|
  {
    if l == [] then KeepRange(pos, len, d)
    else if l[0].Anchored() then
      KeepRange(pos, l[0].op.offset, d) + Puts(LumpText(l[0], ctx)) + Meaning(l[1..], l[0].op.offset, len, d, ctx)
    else
      Puts(LumpText(l[0], ctx)) + Meaning(l[1..], pos, len, d, ctx)
  }

  // ----- The length pass

  /** Fixing an overlap with what is already consumed up to `s`. */
  function FixedOp(op: Op, s: nat): Op {
    match op
    case Del(o, n) => if o < s then Del(s, if n > s - o then n - (s - o) else 0) else op
    case Nop(o) => if o < s then Nop(s) else op
    case Insert(_) => op
  }

  /** The source offset after an operation. */
  function Past(op: Op, s: nat): nat {
    match op
    case Del(o, n) => o + n
    case Nop(o) => o
    case Insert(_) => s
  }

  function Fix(l: seq<Lump>, s: nat): (r: seq<Lump>)
    ensures |r| == |l|
  {
    if l == [] then []
    else
      var op := FixedOp(l[0].op, s);
      [l[0].(op := op)] + Fix(l[1..], Past(op, s))
  }

  /** Characters added minus characters removed, taking the list as it stands. */
  function Delta(l: seq<Lump>, ctx: Ctx): int {
    if l == [] then 0 else |LumpText(l[0], ctx)| - l[0].Removed() + Delta(l[1..], ctx)
  }

  /** What the length pass leaves behind: ranges in order, disjoint, from `s` on. */
  predicate Disjoint(l: seq<Lump>, s: nat) {
    l == [] ||
    ((l[0].Anchored() ==> s <= l[0].op.offset) && Disjoint(l[1..], Past(l[0].op, s)))
  }

  // ----- The writing pass

  /** An anchored lump that starts before the source offset is ignored. */
  predicate Ignored(t: Lump, s: nat) {
    t.Anchored() && s > t.op.offset
  }

  function Render(l: seq<Lump>, s: nat, ctx: Ctx): seq<Cell> {
    if l == [] then []
    else if Ignored(l[0], s) then Render(l[1..], s, ctx)
    else
      (if l[0].Anchored() then Keep(s, l[0].op.offset) else [])
      + Puts(LumpText(l[0], ctx)) + Render(l[1..], Past(l[0].op, s), ctx)
  }

  function RenderEnd(l: seq<Lump>, s: nat): nat {
    if l == [] then s
    else if Ignored(l[0], s) then RenderEnd(l[1..], s)
    else RenderEnd(l[1..], Past(l[0].op, s))
  }

  /** The writing pass followed by the copy of the rest of the message; the
      source offset never passes the end of the message (RenderEndInRange). */
  function Output(l: seq<Lump>, s: nat, len: nat, ctx: Ctx): seq<Cell> {
    Render(l, s, ctx) + (if RenderEnd(l, s) <= len then Keep(RenderEnd(l, s), len) else [])
  }

  lemma {:induction false} RenderEndInRange(l: seq<Lump>, s: nat, len: nat)
    requires InRange(l, len) && s <= len
    ensures s <= RenderEnd(l, s) <= len
  {
    if l != [] {
      assert l[0] in l;
      RenderEndInRange(l[1..], if Ignored(l[0], s) then s else Past(l[0].op, s), len);
    }
  }

  // ----- The length pass leaves a sorted, disjoint, equivalent list

  lemma {:induction false} FixDisjoint(l: seq<Lump>, s: nat, len: nat)
    requires InRange(l, len) && s <= len
    ensures Disjoint(Fix(l, s), s) && InRange(Fix(l, s), len)
  {
    if l != [] {
      assert l[0] in l;
      var op := FixedOp(l[0].op, s);
      FixDisjoint(l[1..], Past(op, s), len);
      Tail(l[0].(op := op), Fix(l[1..], Past(op, s)));
    }
  }

  lemma {:induction false} DisjointIsSorted(l: seq<Lump>, s: nat, from: nat)
    requires Disjoint(l, s) && from <= s
    ensures Sorted(l, from)
  {
    if l != [] {
      DisjointIsSorted(l[1..], Past(l[0].op, s), if l[0].Anchored() then l[0].op.offset else from);
    }
  }

  /** A second length pass over the same list changes nothing. */
  lemma {:induction false} FixIdempotent(l: seq<Lump>, s: nat)
    ensures Fix(Fix(l, s), s) == Fix(l, s)
  {
    if l != [] {
      var op := FixedOp(l[0].op, s);
      FixIdempotent(l[1..], Past(op, s));
      Tail(l[0].(op := op), Fix(l[1..], Past(op, s)));
    }
  }

  lemma {:induction false} NotDeletedBelow(p: nat, l: seq<Lump>, from: nat)
    requires Sorted(l, from) && p < from
    ensures !Deleted(p, l)
  {
    if l != [] {
      NotDeletedBelow(p, l[1..], if l[0].Anchored() then l[0].op.offset else from);
    }
  }

  /** The rewritten ranges cover exactly the requested ones. */
  lemma {:induction false} FixKeepsDeletedUnion(l: seq<Lump>, s: nat, from: nat, len: nat, p: nat)
    requires Sorted(l, from) && InRange(l, len) && s <= len && s <= p
    ensures Deleted(p, Fix(l, s)) <==> Deleted(p, l)
  {
    if l != [] {
      assert l[0] in l;
      var op := FixedOp(l[0].op, s);
      var s' := Past(op, s);
      var from' := if l[0].Anchored() then l[0].op.offset else from;
      Tail(l[0].(op := op), Fix(l[1..], s'));
      if s' <= p {
        FixKeepsDeletedUnion(l[1..], s', from', len, p);
      } else if !Deletes(l[0], p) {
        NotDeletedBelow(p, l[1..], from');
        FixDisjoint(l[1..], s', len);
        DisjointIsSorted(Fix(l[1..], s'), s', s');
        NotDeletedBelow(p, Fix(l[1..], s'), s');
      }
    }
  }

  // ----- Two passes, one meaning

  lemma {:induction false} KeepRangeAllDeleted(a: nat, b: nat, d: seq<Lump>)
    requires a <= b && forall p :: a <= p < b ==> Deleted(p, d)
    ensures KeepRange(a, b, d) == []
    decreases b - a
  {
    if a < b { KeepRangeAllDeleted(a + 1, b, d); }
  }

  lemma {:induction false} KeepRangeNoneDeleted(a: nat, b: nat, d: seq<Lump>)
    requires a <= b && forall p :: a <= p < b ==> !Deleted(p, d)
    ensures KeepRange(a, b, d) == Keep(a, b)
    decreases b - a
  {
    if a < b {
      KeepRangeNoneDeleted(a + 1, b, d);
      assert Keep(a, b) == [Kept(a)] + Keep(a + 1, b);
    }
  }

  lemma {:induction false} KeepRangeSplit(a: nat, m: nat, b: nat, d: seq<Lump>)
    requires a <= m <= b
    ensures KeepRange(a, b, d) == KeepRange(a, m, d) + KeepRange(m, b, d)
    decreases m - a
  {
    if a < m { KeepRangeSplit(a + 1, m, b, d); }
  }

  /** The survivors of [pos, b) when [pos, s) is gone and the rest is whole. */
  lemma SurvivorsAfterGap(pos: nat, s: nat, b: nat, d: seq<Lump>)
    requires pos <= b && pos <= s
    requires forall p :: pos <= p < s ==> Deleted(p, d)
    requires forall p :: s <= p < b ==> !Deleted(p, d)
    ensures KeepRange(pos, b, d) == if s <= b then Keep(s, b) else []
  {
    if s <= b {
      KeepRangeSplit(pos, s, b, d);
      KeepRangeAllDeleted(pos, s, d);
      KeepRangeNoneDeleted(s, b, d);
    } else {
      KeepRangeAllDeleted(pos, b, d);
    }
  }

  /** What one lump contributes when it is not ignored, then the rest. */
  lemma OutputStep(t: Lump, l: seq<Lump>, s: nat, len: nat, ctx: Ctx)
    requires !Ignored(t, s)
    ensures Output([t] + l, s, len, ctx)
         == (if t.Anchored() then Keep(s, t.op.offset) else []) + Puts(LumpText(t, ctx))
             + Output(l, Past(t.op, s), len, ctx)
  {
    Tail(t, l);
  }

  lemma OutputSkip(t: Lump, l: seq<Lump>, s: nat, len: nat, ctx: Ctx)
    requires Ignored(t, s)
    ensures Output([t] + l, s, len, ctx) == Output(l, s, len, ctx)
  {
    Tail(t, l);
  }

  /** One step of the reference meaning, seen from a source offset `s` ahead of it. */
  lemma MeaningStep(t: Lump, l: seq<Lump>, s: nat, pos: nat, len: nat, d: seq<Lump>, ctx: Ctx)
    requires pos <= s <= len && Sorted([t] + l, pos) && InRange([t] + l, len)
    requires forall p :: pos <= p < s ==> Deleted(p, d)
    requires forall p :: s <= p ==> (Deleted(p, d) <==> Deleted(p, [t] + l))
    ensures var pos' := if t.Anchored() then t.op.offset else pos;
            InRange(l, len) && pos' <= len && Sorted(l, pos')
            && Meaning([t] + l, pos, len, d, ctx)
            == (if t.Anchored() && s <= pos' then Keep(s, pos') else []) + Puts(LumpText(t, ctx))
                + Meaning(l, pos', len, d, ctx)
  {
    assert ([t] + l)[1..] == l && t in [t] + l;
    assert InRange(l, len) by { assert forall x :: x in l ==> x in [t] + l; }
    if t.Anchored() {
      forall p | s <= p < t.op.offset ensures !Deleted(p, d) {
        NotDeletedBelow(p, l, t.op.offset);
      }
      SurvivorsAfterGap(pos, s, t.op.offset, d);
    }
  }

  /** Rewriting overlaps in place and then copying around the ranges gives the
      reference meaning: induction over the list, where `pos` is how far the
      reference has walked, `s` how far the source has been consumed, and
      everything between them is deleted. */
  lemma {:induction false} RenderFixedFrom(l: seq<Lump>, s: nat, pos: nat, len: nat, d: seq<Lump>, ctx: Ctx)
    requires pos <= s <= len && Sorted(l, pos) && InRange(l, len)
    requires forall p :: pos <= p < s ==> Deleted(p, d)
    requires forall p :: s <= p ==> (Deleted(p, d) <==> Deleted(p, l))
    ensures Output(Fix(l, s), s, len, ctx) == Meaning(l, pos, len, d, ctx)
  {
    if l == [] {
      SurvivorsAfterGap(pos, s, len, d);
    } else {
      var t, rest := l[0], l[1..];
      assert t in l && l == [t] + rest;
      var t' := t.(op := FixedOp(t.op, s));
      var s' := Past(t'.op, s);
      var pos' := if t.Anchored() then t.op.offset else pos;
      MeaningStep(t, rest, s, pos, len, d, ctx);
      forall p | pos' <= p < s' ensures Deleted(p, d) {
        if s <= p { assert Deletes(t, p); }
      }
      RenderFixedFrom(rest, s', pos', len, d, ctx);
      OutputStep(t', Fix(rest, s'), s, len, ctx);
    }
  }

  /** Main theorem for one list: length pass, writing pass and final copy together
      produce the reference meaning of the list as it was requested. */
  lemma RenderedMeaning(l: seq<Lump>, len: nat, ctx: Ctx)
    requires Sorted(l, 0) && InRange(l, len)
    ensures Output(Fix(l, 0), 0, len, ctx) == Meaning(l, 0, len, l, ctx)
  {
    RenderFixedFrom(l, 0, 0, len, l, ctx);
  }

  // ----- What the meaning keeps and adds

  function KeptOf(cells: seq<Cell>): seq<nat> {
    if cells == [] then []
    else (if cells[0].Kept? then [cells[0].pos] else []) + KeptOf(cells[1..])
  }

  function AddedOf(cells: seq<Cell>): string {
    if cells == [] then []
    else (if cells[0].Put? then [cells[0].c] else []) + AddedOf(cells[1..])
  }

  /** The positions of [a, b) outside the deleted ranges, in order, once each. */
  function Survivors(a: nat, b: nat, d: seq<Lump>): seq<nat>
    requires a <= b
    decreases b - a
  {
    if a == b then [] else (if Deleted(a, d) then [] else [a]) + Survivors(a + 1, b, d)
  }

  lemma {:induction false} SplitKept(a: seq<Cell>, b: seq<Cell>)
    ensures KeptOf(a + b) == KeptOf(a) + KeptOf(b)
  {
    if a == [] {
      assert a + b == b;
    } else {
      SplitKept(a[1..], b);
      ConsConcat(a, b);
    }
  }

  lemma {:induction false} SplitAdded(a: seq<Cell>, b: seq<Cell>)
    ensures AddedOf(a + b) == AddedOf(a) + AddedOf(b)
  {
    if a == [] {
      assert a + b == b;
    } else {
      var head: string := if a[0].Put? then [a[0].c] else [];
      SplitAdded(a[1..], b);
      ConsConcat(a, b);
      assert AddedOf(a + b) == head + AddedOf(a[1..] + b);
      assert AddedOf(a) == head + AddedOf(a[1..]);
    }
  }

  lemma SplitOf(a: seq<Cell>, b: seq<Cell>)
    ensures KeptOf(a + b) == KeptOf(a) + KeptOf(b) && AddedOf(a + b) == AddedOf(a) + AddedOf(b)
  {
    SplitKept(a, b);
    SplitAdded(a, b);
  }

  lemma {:induction false} OfPuts(s: string)
    ensures KeptOf(Puts(s)) == [] && AddedOf(Puts(s)) == s
  {
    if s != "" {
      OfPuts(s[1..]);
      assert Puts(s)[1..] == Puts(s[1..]);
    }
  }

  lemma {:induction false} OfKeepRange(a: nat, b: nat, d: seq<Lump>)
    requires a <= b
    ensures KeptOf(KeepRange(a, b, d)) == Survivors(a, b, d) && AddedOf(KeepRange(a, b, d)) == ""
    decreases b - a
  {
    if a < b {
      OfKeepRange(a + 1, b, d);
      var head: seq<Cell> := if Deleted(a, d) then [] else [Kept(a)];
      SplitOf(head, KeepRange(a + 1, b, d));
    }
  }

  lemma {:induction false} SurvivorsSplit(a: nat, m: nat, b: nat, d: seq<Lump>)
    requires a <= m <= b
    ensures Survivors(a, b, d) == Survivors(a, m, d) + Survivors(m, b, d)
    decreases m - a
  {
    if a < m { SurvivorsSplit(a + 1, m, b, d); }
  }

  /** The meaning keeps exactly the characters outside the union of the deleted
      ranges, in order and once each, and adds exactly the enabled texts in list
      order, once each. */
  lemma {:induction false} MeaningKeepsAndAdds(l: seq<Lump>, pos: nat, len: nat, d: seq<Lump>, ctx: Ctx)
    requires pos <= len && Sorted(l, pos) && InRange(l, len)
    ensures KeptOf(Meaning(l, pos, len, d, ctx)) == Survivors(pos, len, d)
    ensures AddedOf(Meaning(l, pos, len, d, ctx)) == AllText(l, ctx)
    decreases |l|
  {
    if l == [] {
      OfKeepRange(pos, len, d);
    } else {
      assert l[0] in l;
      var o := if l[0].Anchored() then l[0].op.offset else pos;
      MeaningKeepsAndAdds(l[1..], o, len, d, ctx);
      OfThree(pos, o, d, LumpText(l[0], ctx), Meaning(l[1..], o, len, d, ctx));
      SurvivorsSplit(pos, o, len, d);
      if !l[0].Anchored() {
        assert [] + Puts(LumpText(l[0], ctx)) == Puts(LumpText(l[0], ctx));
      }
    }
  }

  lemma OfThree(a: nat, b: nat, d: seq<Lump>, text: string, rest: seq<Cell>)
    requires a <= b
    ensures KeptOf(KeepRange(a, b, d) + Puts(text) + rest) == Survivors(a, b, d) + KeptOf(rest)
    ensures AddedOf(KeepRange(a, b, d) + Puts(text) + rest) == text + AddedOf(rest)
  {
    OfKeepRange(a, b, d);
    OfPuts(text);
    var front := KeepRange(a, b, d) + Puts(text);
    SplitOf(KeepRange(a, b, d), Puts(text));
    assert KeptOf(front) == Survivors(a, b, d) + [] == Survivors(a, b, d) && AddedOf(front) == "" + text == text;
    SplitOf(front, rest);
  }

  lemma {:induction false} SurvivorsExactly(a: nat, b: nat, d: seq<Lump>, p: nat)
    requires a <= b
    ensures p in Survivors(a, b, d) <==> a <= p < b && !Deleted(p, d)
    decreases b - a
  {
    if a < b { SurvivorsExactly(a + 1, b, d, p); }
  }

  // ----- Lengths: what the first pass predicts and what the second one writes

  /** Net length of the lumps the writing pass ignores. */
  function IgnoredDelta(l: seq<Lump>, s: nat, ctx: Ctx): int {
    if l == [] then 0
    else if Ignored(l[0], s) then |LumpText(l[0], ctx)| - l[0].Removed() + IgnoredDelta(l[1..], s, ctx)
    else IgnoredDelta(l[1..], Past(l[0].op, s), ctx)
  }

  /** The exact account of the two passes, for every list and every start. */
  lemma {:induction false} WrittenLength(l: seq<Lump>, s: nat, len: nat, ctx: Ctx)
    requires InRange(l, len) && s <= len
    ensures |Output(l, s, len, ctx)| == len - s + Delta(l, ctx) - IgnoredDelta(l, s, ctx)
  {
    if l != [] {
      var t, rest := l[0], l[1..];
      assert t in l && l == [t] + rest;
      if Ignored(t, s) {
        WrittenLength(rest, s, len, ctx);
        OutputSkip(t, rest, s, len, ctx);
      } else {
        WrittenLength(rest, Past(t.op, s), len, ctx);
        OutputStep(t, rest, s, len, ctx);
      }
    }
  }

  lemma {:induction false} DisjointIgnoresNothing(l: seq<Lump>, s: nat, ctx: Ctx)
    requires Disjoint(l, s)
    ensures IgnoredDelta(l, s, ctx) == 0
  {
    if l != [] { DisjointIgnoresNothing(l[1..], Past(l[0].op, s), ctx); }
  }
}
