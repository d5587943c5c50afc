/** Runs of edit calls on one message: what every call keeps, and what the
    message built after any run contains. */
module LumpCalls {
  import opened Options
  import opened LumpTypes
  import opened LumpSpec
  import opened LumpCrossing
  import opened SeqFacts

  datatype Lists = Lists(hdr: seq<Lump>, body: seq<Lump>)

  datatype Target = Header | Body

  /** One call of the editing interface, with the positions its pointer argument
      stands for: lump `i` of a list, `depth` steps into its chain. */
  datatype Call =
    | DelCall(offset: nat, len: nat)
    | AnchorCall(offset: nat)
    | AppendCall(target: Target, text: string)
    | PrependCall(target: Target, text: string)
    | AfterCall(target: Target, i: nat, depth: nat, piece: Piece)
    | BeforeCall(target: Target, i: nat, depth: nat, piece: Piece)
    | MeasureCall(target: Target)

  /** Offsets behind the end of the headers belong to the body list. */
  function Goes(offset: nat, eoh: Option<nat>): Target {
    if eoh.Some? && offset > eoh.value then Body else Header
  }

  /** Insert behind every lump that does not start later. */
  function InsertSorted(l: seq<Lump>, x: Lump): seq<Lump>
    requires x.Anchored()
  {
    if l == [] then [x]
    else if l[0].Anchored() && l[0].op.offset > x.op.offset then [x] + l
    else [l[0]] + InsertSorted(l[1..], x)
  }

  function Free(text: string): Lump { Lump(Insert(Text(text)), [], []) }

  function AddAfter(t: Lump, depth: nat, piece: Piece): Lump
    requires depth <= |t.after|
  {
    t.(after := t.after[..depth] + [piece] + t.after[depth..])
  }

  function AddBefore(t: Lump, depth: nat, piece: Piece): Lump
    requires depth <= |t.before|
  {
    t.(before := t.before[..depth] + [piece] + t.before[depth..])
  }

  function Get(st: Lists, target: Target): seq<Lump> {
    if target == Header then st.hdr else st.body
  }

  function With(st: Lists, target: Target, l: seq<Lump>): Lists {
    if target == Header then st.(hdr := l) else st.(body := l)
  }

  /** The lists after a call; None when the call aborts the process or its
      pointer argument does not exist. */
  function Apply(st: Lists, c: Call, eoh: Option<nat>, len: nat): Option<Lists> {
    match c
    case DelCall(o, n) =>
      if o > len || o + n > len then None
      else var target := Goes(o, eoh); Some(With(st, target, InsertSorted(Get(st, target), Lump(Del(o, n), [], []))))
    case AnchorCall(o) =>
      if o > len then None
      else var target := Goes(o, eoh); Some(With(st, target, InsertSorted(Get(st, target), Lump(Nop(o), [], []))))
    case AppendCall(target, s) => Some(With(st, target, Get(st, target) + [Free(s)]))
    case PrependCall(target, s) => Some(With(st, target, [Free(s)] + Get(st, target)))
    case AfterCall(target, i, depth, piece) =>
      var l := Get(st, target);
      if i < |l| && depth <= |l[i].after| then Some(With(st, target, l[i := AddAfter(l[i], depth, piece)])) else None
    case BeforeCall(target, i, depth, piece) =>
      var l := Get(st, target);
      if i < |l| && depth <= |l[i].before| then Some(With(st, target, l[i := AddBefore(l[i], depth, piece)])) else None
    case MeasureCall(target) => Some(With(st, target, Fix(Get(st, target), 0)))
  }

  function Run(calls: seq<Call>, eoh: Option<nat>, len: nat): Option<Lists> {
    if calls == [] then Some(Lists([], []))
    else
      var st := Run(calls[..|calls| - 1], eoh, len);
      if st.None? then None else Apply(st.value, calls[|calls| - 1], eoh, len)
  }

  // ----- What a run requested

  predicate AskedBy(p: nat, c: Call) {
    c.DelCall? && c.offset <= p < c.offset + c.len
  }

  predicate Asked(p: nat, calls: seq<Call>) {
    exists c :: c in calls && AskedBy(p, c)
  }

  /** No header deletion reaches behind the end of the headers. */
  predicate StaysInHeader(calls: seq<Call>, eoh: Option<nat>) {
    eoh.Some? ==> forall c :: c in calls && c.DelCall? && c.offset <= eoh.value ==> c.offset + c.len <= eoh.value
  }

  function PieceOf(c: Call): multiset<Piece> {
    match c
    case AppendCall(_, s) => multiset{Text(s)}
    case PrependCall(_, s) => multiset{Text(s)}
    case AfterCall(_, _, _, piece) => multiset{piece}
    case BeforeCall(_, _, _, piece) => multiset{piece}
    case _ => multiset{}
  }

  function PiecesAsked(calls: seq<Call>): multiset<Piece> {
    if calls == [] then multiset{} else PiecesAsked(calls[..|calls| - 1]) + PieceOf(calls[|calls| - 1])
  }

  function PiecesOf(t: Lump): multiset<Piece> {
    multiset(t.before) + multiset(t.after) + (if t.op.Insert? then multiset{t.op.piece} else multiset{})
  }

  function Pieces(l: seq<Lump>): multiset<Piece> {
    if l == [] then multiset{} else PiecesOf(l[0]) + Pieces(l[1..])
  }

  // ----- What every call keeps

  ghost predicate Covers(l: seq<Lump>, m: seq<Lump>) {
    forall p: nat :: Deleted(p, l) <==> Deleted(p, m)
  }

  lemma {:induction false} InsertSortedKeeps(l: seq<Lump>, x: Lump, from: nat, len: nat)
    requires x.Anchored() && Sorted(l, from) && from <= x.op.offset
    requires InRange(l, len) && x.op.offset + x.Removed() <= len
    ensures Sorted(InsertSorted(l, x), from) && InRange(InsertSorted(l, x), len)
    ensures forall p: nat :: Deleted(p, InsertSorted(l, x)) <==> Deletes(x, p) || Deleted(p, l)
  {
    var r := InsertSorted(l, x);
    if l == [] {
    } else if l[0].Anchored() && l[0].op.offset > x.op.offset {
      assert r[1..] == l;
    } else {
      assert forall t :: t in l[1..] ==> t in l;
      InsertSortedKeeps(l[1..], x, if l[0].Anchored() then l[0].op.offset else from, len);
      assert r[1..] == InsertSorted(l[1..], x);
    }
  }

  lemma {:induction false} SameOps(l: seq<Lump>, m: seq<Lump>, from: nat)
    requires |l| == |m| && forall i :: 0 <= i < |l| ==> l[i].op == m[i].op
    ensures Sorted(l, from) == Sorted(m, from)
    ensures Covers(l, m)
  {
    if l != [] {
      SameOps(l[1..], m[1..], if l[0].Anchored() then l[0].op.offset else from);
    }
  }

  lemma SameOpsInRange(l: seq<Lump>, m: seq<Lump>, len: nat)
    requires |l| == |m| && forall i :: 0 <= i < |l| ==> l[i].op == m[i].op
    requires InRange(l, len)
    ensures InRange(m, len)
  {
    forall t | t in m && t.Anchored() ensures t.op.offset + t.Removed() <= len {
      var i :| 0 <= i < |m| && m[i] == t;
      assert l[i] in l;
    }
  }

  lemma {:induction false} PiecesUpdated(l: seq<Lump>, i: nat, t: Lump, piece: Piece)
    requires i < |l| && PiecesOf(t) == PiecesOf(l[i]) + multiset{piece}
    ensures Pieces(l[i := t]) == Pieces(l) + multiset{piece}
  {
    if i == 0 {
      assert l[0 := t][1..] == l[1..];
    } else {
      PiecesUpdated(l[1..], i - 1, t, piece);
      assert l[i := t][1..] == l[1..][i - 1 := t];
    }
  }

  lemma ChainGrows(chain: seq<Piece>, depth: nat, piece: Piece)
    requires depth <= |chain|
    ensures multiset(chain[..depth] + [piece] + chain[depth..]) == multiset(chain) + multiset{piece}
  {
    assert chain == chain[..depth] + chain[depth..];
  }

  lemma AddedPiece(t: Lump, depth: nat, piece: Piece)
    ensures depth <= |t.after| ==> PiecesOf(AddAfter(t, depth, piece)) == PiecesOf(t) + multiset{piece}
    ensures depth <= |t.before| ==> PiecesOf(AddBefore(t, depth, piece)) == PiecesOf(t) + multiset{piece}
  {
    if depth <= |t.after| { ChainGrows(t.after, depth, piece); }
    if depth <= |t.before| { ChainGrows(t.before, depth, piece); }
  }

  lemma {:induction false} AppendedFree(l: seq<Lump>, x: Lump, from: nat)
    requires !x.Anchored() && Sorted(l, from)
    ensures Sorted(l + [x], from) && Covers(l + [x], l)
  {
    if l == [] {
      assert l + [x] == [x];
    } else {
      ConsConcat(l, [x]);
      AppendedFree(l[1..], x, if l[0].Anchored() then l[0].op.offset else from);
    }
  }

  lemma {:induction false} FixKeepsPieces(l: seq<Lump>, s: nat)
    ensures Pieces(Fix(l, s)) == Pieces(l)
  {
    if l != [] {
      var op := FixedOp(l[0].op, s);
      FixKeepsPieces(l[1..], Past(op, s));
      Tail(l[0].(op := op), Fix(l[1..], Past(op, s)));
    }
  }

  lemma FixKeepsAll(l: seq<Lump>, len: nat)
    requires Sorted(l, 0) && InRange(l, len)
    ensures Sorted(Fix(l, 0), 0) && InRange(Fix(l, 0), len) && Covers(Fix(l, 0), l)
  {
    FixDisjoint(l, 0, len);
    DisjointIsSorted(Fix(l, 0), 0, 0);
    forall p: nat ensures Deleted(p, Fix(l, 0)) <==> Deleted(p, l) {
      FixKeepsDeletedUnion(l, 0, 0, len, p);
    }
  }

  ghost predicate Orderly(st: Lists, len: nat) {
    Sorted(st.hdr, 0) && Sorted(st.body, 0) && InRange(st.hdr, len) && InRange(st.body, len)
  }

  /** How a call changes the one list it addresses. */
  predicate Changes(l: seq<Lump>, c: Call, m: seq<Lump>, len: nat) {
    match c
    case DelCall(o, n) => o + n <= len && m == InsertSorted(l, Lump(Del(o, n), [], []))
    case AnchorCall(o) => o <= len && m == InsertSorted(l, Lump(Nop(o), [], []))
    case AppendCall(_, s) => m == l + [Free(s)]
    case PrependCall(_, s) => m == [Free(s)] + l
    case AfterCall(_, i, depth, piece) => i < |l| && depth <= |l[i].after| && m == l[i := AddAfter(l[i], depth, piece)]
    case BeforeCall(_, i, depth, piece) => i < |l| && depth <= |l[i].before|
        && m == l[i := AddBefore(l[i], depth, piece)]
    case MeasureCall(_) => m == Fix(l, 0)
  }

  lemma ChainStep(l: seq<Lump>, i: nat, t: Lump, len: nat)
    requires Sorted(l, 0) && InRange(l, len) && i < |l| && t.op == l[i].op
    ensures var m := l[i := t];
            Sorted(m, 0) && InRange(m, len) && Covers(m, l)
  {
    SameOps(l, l[i := t], 0);
    SameOpsInRange(l, l[i := t], len);
  }

  lemma ListStepShape(l: seq<Lump>, c: Call, m: seq<Lump>, len: nat)
    requires Sorted(l, 0) && InRange(l, len) && Changes(l, c, m, len)
    ensures Sorted(m, 0) && InRange(m, len)
  {
    match c {
      case DelCall(o, n) => InsertSortedKeeps(l, Lump(Del(o, n), [], []), 0, len);
      case AnchorCall(o) => InsertSortedKeeps(l, Lump(Nop(o), [], []), 0, len);
      case AppendCall(_, s) => AppendedFree(l, Free(s), 0);
      case PrependCall(_, s) => PrependedFree(l, Free(s), len);
      case AfterCall(_, i, depth, piece) => ChainStep(l, i, AddAfter(l[i], depth, piece), len);
      case BeforeCall(_, i, depth, piece) => ChainStep(l, i, AddBefore(l[i], depth, piece), len);
      case MeasureCall(_) => FixKeepsAll(l, len);
    }
  }

  lemma {:induction false} InsertedPieces(l: seq<Lump>, x: Lump)
    requires x.Anchored()
    ensures Pieces(InsertSorted(l, x)) == Pieces(l) + PiecesOf(x)
  {
    if l == [] {
    } else if l[0].Anchored() && l[0].op.offset > x.op.offset {
      assert InsertSorted(l, x)[1..] == l;
    } else {
      InsertedPieces(l[1..], x);
      assert InsertSorted(l, x)[1..] == InsertSorted(l[1..], x);
    }
  }

  lemma {:induction false} AppendedPieces(l: seq<Lump>, x: Lump)
    ensures Pieces(l + [x]) == Pieces(l) + PiecesOf(x)
  {
    if l == [] {
      assert l + [x] == [x];
    } else {
      ConsConcat(l, [x]);
      AppendedPieces(l[1..], x);
    }
  }

  lemma ListStepPieces(l: seq<Lump>, c: Call, m: seq<Lump>, len: nat)
    requires Changes(l, c, m, len)
    ensures Pieces(m) == Pieces(l) + PieceOf(c)
  {
    match c {
      case DelCall(o, n) => InsertedPieces(l, Lump(Del(o, n), [], []));
      case AnchorCall(o) => InsertedPieces(l, Lump(Nop(o), [], []));
      case AppendCall(_, s) => AppendedPieces(l, Free(s));
      case PrependCall(_, s) => assert m[1..] == l;
      case AfterCall(_, i, depth, piece) =>
        AddedPiece(l[i], depth, piece);
        PiecesUpdated(l, i, AddAfter(l[i], depth, piece), piece);
      case BeforeCall(_, i, depth, piece) =>
        AddedPiece(l[i], depth, piece);
        PiecesUpdated(l, i, AddBefore(l[i], depth, piece), piece);
      case MeasureCall(_) => FixKeepsPieces(l, 0);
    }
  }

  lemma PrependedFree(l: seq<Lump>, x: Lump, len: nat)
    requires !x.Anchored() && Sorted(l, 0)
    ensures Sorted([x] + l, 0) && Covers([x] + l, l)
  {
    assert ([x] + l)[1..] == l;
  }

  lemma ListStepDeletes(l: seq<Lump>, c: Call, m: seq<Lump>, len: nat, p: nat)
    requires Sorted(l, 0) && InRange(l, len) && Changes(l, c, m, len)
    ensures Deleted(p, m) <==> AskedBy(p, c) || Deleted(p, l)
  {
    match c {
      case DelCall(o, n) => InsertSortedKeeps(l, Lump(Del(o, n), [], []), 0, len);
      case AnchorCall(o) => InsertSortedKeeps(l, Lump(Nop(o), [], []), 0, len);
      case AppendCall(_, s) => AppendedFree(l, Free(s), 0);
      case PrependCall(_, s) => PrependedFree(l, Free(s), len);
      case AfterCall(_, i, depth, piece) => SameOps(l, m, 0);
      case BeforeCall(_, i, depth, piece) => SameOps(l, m, 0);
      case MeasureCall(_) => FixKeepsDeletedUnion(l, 0, 0, len, p);
    }
  }

  /** Which list a call changes. */
  function TargetOf(c: Call, eoh: Option<nat>): Target {
    match c
    case DelCall(o, _) => Goes(o, eoh)
    case AnchorCall(o) => Goes(o, eoh)
    case _ => c.target
  }

  lemma ApplyChangesOneList(st: Lists, c: Call, eoh: Option<nat>, len: nat)
    requires Apply(st, c, eoh, len).Some?
    ensures var st', target := Apply(st, c, eoh, len).value, TargetOf(c, eoh);
            Changes(Get(st, target), c, Get(st', target), len)
            && st' == With(st, target, Get(st', target))
  {
  }

  lemma ApplyKeeps(st: Lists, c: Call, eoh: Option<nat>, len: nat)
    requires Orderly(st, len) && Apply(st, c, eoh, len).Some?
    ensures Orderly(Apply(st, c, eoh, len).value, len)
  {
    var st' := Apply(st, c, eoh, len).value;
    var target := TargetOf(c, eoh);
    ApplyChangesOneList(st, c, eoh, len);
    ListStepShape(Get(st, target), c, Get(st', target), len);
  }

  function AllPieces(st: Lists): multiset<Piece> {
    Pieces(st.hdr) + Pieces(st.body)
  }

  lemma ApplyAdds(st: Lists, c: Call, eoh: Option<nat>, len: nat)
    requires Orderly(st, len) && Apply(st, c, eoh, len).Some?
    ensures AllPieces(Apply(st, c, eoh, len).value) == AllPieces(st) + PieceOf(c)
  {
    var st' := Apply(st, c, eoh, len).value;
    var target := TargetOf(c, eoh);
    ApplyChangesOneList(st, c, eoh, len);
    ListStepPieces(Get(st, target), c, Get(st', target), len);
  }

  lemma ApplyDeletes(st: Lists, c: Call, eoh: Option<nat>, len: nat, p: nat)
    requires Orderly(st, len) && Apply(st, c, eoh, len).Some?
    ensures var st' := Apply(st, c, eoh, len).value;
            Deleted(p, st'.hdr) || Deleted(p, st'.body) <==> AskedBy(p, c) || Deleted(p, st.hdr) || Deleted(p, st.body)
  {
    var st' := Apply(st, c, eoh, len).value;
    var target := TargetOf(c, eoh);
    ApplyChangesOneList(st, c, eoh, len);
    ListStepDeletes(Get(st, target), c, Get(st', target), len, p);
  }

  /** In every run both lists stay sorted and in range, the union of their ranges
      is the union of the ranges asked for, and every piece inserted by a call is
      in the lists exactly as often as it was inserted. */
  lemma {:induction false} EveryRun(calls: seq<Call>, eoh: Option<nat>, len: nat)
    requires Run(calls, eoh, len).Some?
    ensures var st := Run(calls, eoh, len).value;
            Orderly(st, len)
            && AllPieces(st) == PiecesAsked(calls)
            && forall p: nat :: Deleted(p, st.hdr) || Deleted(p, st.body) <==> Asked(p, calls)
    decreases |calls|
  {
    if calls != [] {
      var init, last := calls[..|calls| - 1], calls[|calls| - 1];
      assert calls == init + [last];
      EveryRun(init, eoh, len);
      ApplyKeeps(Run(init, eoh, len).value, last, eoh, len);
      ApplyAdds(Run(init, eoh, len).value, last, eoh, len);
      var st, st' := Run(init, eoh, len).value, Run(calls, eoh, len).value;
      forall p: nat ensures Deleted(p, st'.hdr) || Deleted(p, st'.body) <==> Asked(p, calls) {
        AskedSplit(p, init, last);
        ApplyDeletes(st, last, eoh, len, p);
      }
    }
  }

  lemma AskedSplit(p: nat, init: seq<Call>, last: Call)
    ensures Asked(p, init + [last]) <==> Asked(p, init) || AskedBy(p, last)
  {
    if Asked(p, init) {
      var c :| c in init && AskedBy(p, c);
      assert c in init + [last];
    }
    if AskedBy(p, last) {
      assert last in init + [last];
    }
  }

  // ----- Header lumps stay in front of body lumps

  predicate AllBehind(l: seq<Lump>, b: nat) {
    forall t :: t in l && t.Anchored() ==> b < t.op.offset
  }

  /** Header deletions stay in the header, and body lumps behind it. */
  ghost predicate Fenced(st: Lists, eoh: Option<nat>) {
    if eoh.None? then NoneAnchored(st.body)
    else
      AllBehind(st.body, eoh.value)
      && InRange(st.hdr, eoh.value)
  }

  predicate NoneAnchored(l: seq<Lump>) {
    forall t :: t in l ==> !t.Anchored()
  }

  /** Whatever lies behind the end of the headers and in front of a header lump is deleted: a
      lump gets there only when it is measured, by a deletion in front of it. */
  ghost predicate Covered(l: seq<Lump>, b: nat) {
    forall t, p: nat :: t in l && t.Anchored() && b < p < t.op.offset ==> Deleted(p, l)
  }

  /** The same for body lumps that are behind the end of the headers, in any run. */
  ghost predicate Apart(st: Lists, eoh: Option<nat>) {
    if eoh.None? then NoneAnchored(st.body) else AllBehind(st.body, eoh.value) && Covered(st.hdr, eoh.value)
  }

  lemma {:induction false} InsertedMembers(l: seq<Lump>, x: Lump, t: Lump)
    requires x.Anchored()
    ensures t in InsertSorted(l, x) <==> t in l || t == x
  {
    if l != [] && !(l[0].Anchored() && l[0].op.offset > x.op.offset) {
      InsertedMembers(l[1..], x, t);
      assert l == [l[0]] + l[1..];
    }
  }

  lemma {:induction false} FixMembersBehind(l: seq<Lump>, s: nat, b: nat)
    requires AllBehind(l, b)
    ensures AllBehind(Fix(l, s), b)
  {
    if l != [] {
      assert l[0] in l;
      FixMembersBehind(l[1..], Past(FixedOp(l[0].op, s), s), b);
    }
  }

  lemma {:induction false} FixFree(l: seq<Lump>, s: nat)
    requires forall t :: t in l ==> !t.Anchored()
    ensures Fix(l, s) == l
  {
    if l != [] {
      assert l[0] in l;
      FixFree(l[1..], s);
    }
  }

  lemma ApplyFenced(st: Lists, c: Call, eoh: Option<nat>, len: nat)
    requires Fenced(st, eoh) && Apply(st, c, eoh, len).Some? && StaysInHeader([c], eoh)
    ensures Fenced(Apply(st, c, eoh, len).value, eoh)
  {
    assert c in [c];
    BodyStaysBehind(st, c, eoh, len);
    var st' := Apply(st, c, eoh, len).value;
    if eoh.Some? && TargetOf(c, eoh) == Header {
      match c
      case DelCall(o, n) => InsertedWithin(st.hdr, Lump(Del(o, n), [], []), eoh.value);
      case AnchorCall(o) => InsertedWithin(st.hdr, Lump(Nop(o), [], []), eoh.value);
      case AfterCall(_, i, _, _) => assert st.hdr[i] in st.hdr;
      case BeforeCall(_, i, _, _) => assert st.hdr[i] in st.hdr;
      case MeasureCall(_) => FixDisjoint(st.hdr, 0, eoh.value);
      case _ =>
    }
  }

  lemma InsertedWithin(l: seq<Lump>, x: Lump, b: nat)
    requires x.Anchored() && x.op.offset + x.Removed() <= b
    requires InRange(l, b)
    ensures forall t :: t in InsertSorted(l, x) && t.Anchored() ==> t.op.offset + t.Removed() <= b
  {
    forall t | t in InsertSorted(l, x) ensures t in l || t == x { InsertedMembers(l, x, t); }
  }

  lemma InsertedBehind(l: seq<Lump>, x: Lump, b: nat)
    requires x.Anchored() && b < x.op.offset && AllBehind(l, b)
    ensures AllBehind(InsertSorted(l, x), b)
  {
    forall t | t in InsertSorted(l, x) ensures t in l || t == x { InsertedMembers(l, x, t); }
  }

  /** The body list in any call. */
  lemma BodyStaysBehind(st: Lists, c: Call, eoh: Option<nat>, len: nat)
    requires Apply(st, c, eoh, len).Some?
    requires if eoh.None? then NoneAnchored(st.body) else AllBehind(st.body, eoh.value)
    ensures var st' := Apply(st, c, eoh, len).value;
            if eoh.None? then NoneAnchored(st'.body) else AllBehind(st'.body, eoh.value)
  {
    if TargetOf(c, eoh) == Body {
      match c
      case DelCall(o, n) => InsertedBehind(st.body, Lump(Del(o, n), [], []), eoh.value);
      case AnchorCall(o) => InsertedBehind(st.body, Lump(Nop(o), [], []), eoh.value);
      case AfterCall(_, i, _, _) => assert st.body[i] in st.body;
      case BeforeCall(_, i, _, _) => assert st.body[i] in st.body;
      case MeasureCall(_) => if eoh.Some? { FixMembersBehind(st.body, 0, eoh.value); } else { FixFree(st.body, 0); }
      case _ =>
    }
  }

  lemma {:induction false} RunFenced(calls: seq<Call>, eoh: Option<nat>, len: nat)
    requires Run(calls, eoh, len).Some? && StaysInHeader(calls, eoh)
    ensures Fenced(Run(calls, eoh, len).value, eoh)
    decreases |calls|
  {
    if calls != [] {
      var init, last := calls[..|calls| - 1], calls[|calls| - 1];
      assert last in calls && forall c :: c in init ==> c in calls;
      RunFenced(init, eoh, len);
      ApplyFenced(Run(init, eoh, len).value, last, eoh, len);
    }
  }

  // ----- Header lumps that measuring has moved

  /** A lump moves only over what is deleted. */
  lemma {:induction false} FixMoves(l: seq<Lump>, s: nat, b: nat, d: seq<Lump>)
    requires forall t, p: nat :: t in l && t.Anchored() && b < p < t.op.offset ==> Deleted(p, d)
    requires forall t, p: nat :: t in l && Deletes(t, p) ==> Deleted(p, d)
    requires forall p: nat :: b < p < s ==> Deleted(p, d)
    ensures forall t, p: nat :: t in Fix(l, s) && t.Anchored() && b < p < t.op.offset ==> Deleted(p, d)
  {
    if l != [] {
      assert l[0] in l && forall t :: t in l[1..] ==> t in l;
      var op := FixedOp(l[0].op, s);
      forall p: nat | b < p < Past(op, s) ensures Deleted(p, d) {
        if op.Del? && op.offset <= p { assert Deletes(l[0], p); }
      }
      FixMoves(l[1..], Past(op, s), b, d);
    }
  }

  lemma {:induction false} DeletesIn(l: seq<Lump>, t: Lump, p: nat)
    requires t in l && Deletes(t, p)
    ensures Deleted(p, l)
  {
    if t != l[0] { DeletesIn(l[1..], t, p); }
  }

  lemma MeasuredCovered(l: seq<Lump>, b: nat, len: nat)
    requires Sorted(l, 0) && InRange(l, len) && Covered(l, b)
    ensures Covered(Fix(l, 0), b)
  {
    forall t, p: nat | t in l && Deletes(t, p) ensures Deleted(p, l) { DeletesIn(l, t, p); }
    FixMoves(l, 0, b, l);
    forall t, p: nat | t in Fix(l, 0) && t.Anchored() && b < p < t.op.offset ensures Deleted(p, Fix(l, 0)) {
      FixKeepsDeletedUnion(l, 0, 0, len, p);
    }
  }

  lemma InsertedCovered(l: seq<Lump>, x: Lump, b: nat, len: nat)
    requires Sorted(l, 0) && InRange(l, len) && x.Anchored() && x.op.offset + x.Removed() <= len
    requires Covered(l, b) && x.op.offset <= b
    ensures Covered(InsertSorted(l, x), b)
  {
    InsertSortedKeeps(l, x, 0, len);
    forall t, p: nat | t in InsertSorted(l, x) && t.Anchored() && b < p < t.op.offset
      ensures Deleted(p, InsertSorted(l, x))
    {
      InsertedMembers(l, x, t);
    }
  }

  /** The same ranges in another list of lumps. */
  lemma SameOpsCovered(l: seq<Lump>, m: seq<Lump>, b: nat)
    requires |l| == |m| && (forall i :: 0 <= i < |l| ==> l[i].op == m[i].op) && Covered(l, b)
    ensures Covered(m, b)
  {
    SameOps(l, m, 0);
    forall t, p: nat | t in m && t.Anchored() && b < p < t.op.offset ensures Deleted(p, m) {
      var i :| 0 <= i < |m| && m[i] == t;
      assert l[i] in l && Deleted(p, l);
    }
  }

  lemma FreeCovered(l: seq<Lump>, text: string, b: nat)
    requires Covered(l, b)
    ensures Covered(l + [Free(text)], b) && Covered([Free(text)] + l, b)
  {
    forall p: nat
      ensures Deleted(p, l + [Free(text)]) <==> Deleted(p, l)
      ensures Deleted(p, [Free(text)] + l) <==> Deleted(p, l)
    {
      assert [Free(text)][1..] == [];
      DeletedConcat(p, l, [Free(text)]);
      DeletedConcat(p, [Free(text)], l);
    }
  }

  lemma HeaderStaysCovered(st: Lists, c: Call, eoh: Option<nat>, len: nat)
    requires Orderly(st, len) && Apply(st, c, eoh, len).Some? && eoh.Some? && Covered(st.hdr, eoh.value)
    ensures Covered(Apply(st, c, eoh, len).value.hdr, eoh.value)
  {
    if TargetOf(c, eoh) == Header {
      match c
      case DelCall(o, n) => InsertedCovered(st.hdr, Lump(Del(o, n), [], []), eoh.value, len);
      case AnchorCall(o) => InsertedCovered(st.hdr, Lump(Nop(o), [], []), eoh.value, len);
      case AppendCall(_, text) => FreeCovered(st.hdr, text, eoh.value);
      case PrependCall(_, text) => FreeCovered(st.hdr, text, eoh.value);
      case AfterCall(_, _, _, _) => SameOpsCovered(st.hdr, Apply(st, c, eoh, len).value.hdr, eoh.value);
      case BeforeCall(_, _, _, _) => SameOpsCovered(st.hdr, Apply(st, c, eoh, len).value.hdr, eoh.value);
      case MeasureCall(_) => MeasuredCovered(st.hdr, eoh.value, len);
    }
  }

  lemma {:induction false} RunApart(calls: seq<Call>, eoh: Option<nat>, len: nat)
    requires Run(calls, eoh, len).Some?
    ensures Apart(Run(calls, eoh, len).value, eoh)
    decreases |calls|
  {
    if calls != [] {
      var init, last := calls[..|calls| - 1], calls[|calls| - 1];
      RunApart(init, eoh, len);
      EveryRun(init, eoh, len);
      BodyStaysBehind(Run(init, eoh, len).value, last, eoh, len);
      if eoh.Some? { HeaderStaysCovered(Run(init, eoh, len).value, last, eoh, len); }
    }
  }

  /** What lies between the end of the headers and the end of the header edits is deleted. */
  lemma {:induction false} EndCovered(l: seq<Lump>, s: nat, b: nat, d: seq<Lump>, p: nat)
    requires forall t, q: nat :: t in l && t.Anchored() && b < q < t.op.offset ==> Deleted(q, d)
    requires forall t, q: nat :: t in l && Deletes(t, q) ==> Deleted(q, d)
    requires b < p < RenderEnd(l, s) && (p < s ==> Deleted(p, d))
    ensures Deleted(p, d)
  {
    if l != [] {
      assert l[0] in l && forall t :: t in l[1..] ==> t in l;
      if Ignored(l[0], s) {
        EndCovered(l[1..], s, b, d, p);
      } else {
        if l[0].op.Del? && l[0].op.offset <= p < Past(l[0].op, s) { assert Deletes(l[0], p); }
        EndCovered(l[1..], Past(l[0].op, s), b, d, p);
      }
    }
  }

  // ----- Main theorems over runs

  /** The positions no call asked to delete, in order. */
  ghost function Unasked(a: nat, b: nat, calls: seq<Call>): seq<nat>
    requires a <= b
    decreases b - a
  {
    if a == b then [] else (if Asked(a, calls) then [] else [a]) + Unasked(a + 1, b, calls)
  }

  lemma {:induction false} UnaskedIsSurvivors(a: nat, b: nat, calls: seq<Call>, d: seq<Lump>)
    requires a <= b && forall p: nat :: Deleted(p, d) <==> Asked(p, calls)
    ensures Unasked(a, b, calls) == Survivors(a, b, d)
    decreases b - a
  {
    if a < b { UnaskedIsSurvivors(a + 1, b, calls, d); }
  }

  lemma {:induction false} DeletedConcat(p: nat, a: seq<Lump>, b: seq<Lump>)
    ensures Deleted(p, a + b) <==> Deleted(p, a) || Deleted(p, b)
  {
    if a == [] {
      assert a + b == b;
    } else {
      ConsConcat(a, b);
      DeletedConcat(p, a[1..], b);
    }
  }

  lemma {:induction false} AllTextConcat(a: seq<Lump>, b: seq<Lump>, ctx: Ctx)
    ensures AllText(a + b, ctx) == AllText(a, ctx) + AllText(b, ctx)
  {
    if a == [] {
      assert a + b == b;
    } else {
      ConsConcat(a, b);
      AllTextConcat(a[1..], b, ctx);
    }
  }

  /** What both measured lists delete, when the body list is measured from where it is written. */
  lemma JointlyDeleted(st: Lists, eoh: Option<nat>, len: nat, p: nat)
    requires Orderly(st, len) && Apart(st, eoh) && HeaderEnd(st.hdr) <= len
    ensures Deleted(p, Fix(st.hdr + st.body, 0)) <==> Deleted(p, st.hdr) || Deleted(p, st.body)
  {
    var fh, e := Fix(st.hdr, 0), HeaderEnd(st.hdr);
    FixConcat(st.hdr, st.body, 0);
    DeletedConcat(p, fh, Fix(st.body, e));
    FixKeepsDeletedUnion(st.hdr, 0, 0, len, p);
    if p >= e {
      FixKeepsDeletedUnion(st.body, e, 0, len, p);
    } else {
      FixDisjoint(st.body, e, len);
      DisjointIsSorted(Fix(st.body, e), e, e);
      NotDeletedBelow(p, Fix(st.body, e), e);
      if Deleted(p, st.body) { BodyDeletesCovered(st, eoh, len, p); }
    }
  }

  lemma BodyDeletesCovered(st: Lists, eoh: Option<nat>, len: nat, p: nat)
    requires Orderly(st, len) && Apart(st, eoh) && p < HeaderEnd(st.hdr) && Deleted(p, st.body)
    ensures Deleted(p, st.hdr)
  {
    var t := DeletedBy(st.body, p);
    var b, fh := eoh.value, Fix(st.hdr, 0);
    MeasuredCovered(st.hdr, b, len);
    forall u, q: nat | u in fh && Deletes(u, q) ensures Deleted(q, fh) { DeletesIn(fh, u, q); }
    EndCovered(fh, 0, b, fh, p);
    FixKeepsDeletedUnion(st.hdr, 0, 0, len, p);
  }

  lemma {:induction false} DeletedBy(l: seq<Lump>, p: nat) returns (t: Lump)
    requires Deleted(p, l)
    ensures t in l && Deletes(t, p)
  {
    if Deletes(l[0], p) { t := l[0]; } else { t := DeletedBy(l[1..], p); }
  }

  /** What a message built from both lists keeps and adds, whatever was measured before. */
  lemma BuiltWhenNothingLost(st: Lists, eoh: Option<nat>, len: nat, ctx: Ctx)
    requires Orderly(st, len) && Apart(st, eoh) && NothingLost(Fix(st.body, 0), HeaderEnd(st.hdr), ctx)
    ensures var cells := Output(Fix(st.hdr, 0) + Fix(st.body, 0), 0, len, ctx);
            var d := Fix(st.hdr + st.body, 0);
            (forall p: nat :: Deleted(p, d) <==> Deleted(p, st.hdr) || Deleted(p, st.body))
            && KeptOf(cells) == Survivors(0, len, d) && AddedOf(cells) == AllText(st.hdr, ctx) + AllText(st.body, ctx)
  {
    var l := st.hdr + st.body;
    var d, e := Fix(l, 0), HeaderEnd(st.hdr);
    assert InRange(l, len) by { assert forall t :: t in l ==> t in st.hdr || t in st.body; }
    FixDisjoint(st.hdr, 0, len);
    RenderEndInRange(Fix(st.hdr, 0), 0, len);
    JointLayout(st.hdr, st.body, len, ctx);
    NothingLostMeansSameOutput(st.body, 0, e, len, ctx);
    FixDisjoint(l, 0, len);
    DisjointIsSorted(d, 0, 0);
    FixIdempotent(l, 0);
    RenderedMeaning(d, len, ctx);
    MeaningKeepsAndAdds(d, 0, len, d, ctx);
    forall p: nat ensures Deleted(p, d) <==> Deleted(p, st.hdr) || Deleted(p, st.body) {
      JointlyDeleted(st, eoh, len, p);
    }
    FixKeepsText(l, 0, ctx);
    AllTextConcat(st.hdr, st.body, ctx);
  }

  /** Text that is lost is missing, and a deletion that is lost leaves a character behind. */
  lemma LossShows(st: Lists, len: nat, ctx: Ctx) returns (p: nat)
    requires Orderly(st, len) && !NothingLost(Fix(st.body, 0), HeaderEnd(st.hdr), ctx)
    ensures var cells := Output(Fix(st.hdr, 0) + Fix(st.body, 0), 0, len, ctx);
            |AddedOf(cells)| < |AllText(st.hdr, ctx) + AllText(st.body, ctx)|
            || (p in KeptOf(cells) && Deleted(p, st.body))
  {
    var fh, fb, e := Fix(st.hdr, 0), Fix(st.body, 0), HeaderEnd(st.hdr);
    var t :| t in fb && Lost(t, e, ctx);
    FixDisjoint(st.hdr, 0, len);
    FixDisjoint(st.body, 0, len);
    p := 0;
    if LumpText(t, ctx) != "" {
      LostTextCounts(fb, 0, e, t, ctx);
      IgnoredTextConcat(fh, fb, 0, ctx);
      assert InRange(fh + fb, len) by { assert forall x :: x in fh + fb ==> x in fh || x in fb; }
      AddedByOutput(fh + fb, 0, len, ctx);
      FixKeepsText(st.hdr, 0, ctx);
      FixKeepsText(st.body, 0, ctx);
      AllTextConcat(fh, fb, ctx);
    } else {
      p := t.op.offset + t.Removed() - 1;
      LostDeletionKept(fb, 0, e, len, t, p, ctx);
      FixedRangesAreRequested(st.body, 0, t, p);
      OutputConcat(fh, fb, 0, len, ctx);
      KeptPrefix(Render(fh, 0, ctx), Output(fb, e, len, ctx), p);
    }
  }

  /** Whatever was called, measuring included: the message built from the lists keeps exactly
      the characters no call asked to delete, in order and once each, and adds exactly the
      enabled texts, once each, if and only if nothing is lost behind the header edits. */
  lemma BuiltAfterRunIff(calls: seq<Call>, eoh: Option<nat>, len: nat, ctx: Ctx)
    requires Run(calls, eoh, len).Some?
    ensures var st := Run(calls, eoh, len).value;
            var cells := Output(Fix(st.hdr, 0) + Fix(st.body, 0), 0, len, ctx);
            KeptOf(cells) == Unasked(0, len, calls) && AddedOf(cells) == AllText(st.hdr, ctx) + AllText(st.body, ctx)
            <==> NothingLost(Fix(st.body, 0), HeaderEnd(st.hdr), ctx)
  {
    var st := Run(calls, eoh, len).value;
    var d := Fix(st.hdr + st.body, 0);
    EveryRun(calls, eoh, len);
    RunApart(calls, eoh, len);
    if NothingLost(Fix(st.body, 0), HeaderEnd(st.hdr), ctx) {
      BuiltWhenNothingLost(st, eoh, len, ctx);
      UnaskedIsSurvivors(0, len, calls, d);
    } else {
      var p := LossShows(st, len, ctx);
      if Deleted(p, st.body) { AskedIsOut(0, len, calls, p); }
    }
  }

  lemma {:induction false} AskedIsOut(a: nat, b: nat, calls: seq<Call>, p: nat)
    requires a <= b && Asked(p, calls)
    ensures p !in Unasked(a, b, calls)
    decreases b - a
  {
    if a < b { AskedIsOut(a + 1, b, calls, p); }
  }

  lemma {:induction false} IgnoredTextConcat(a: seq<Lump>, b: seq<Lump>, s: nat, ctx: Ctx)
    ensures IgnoredText(a + b, s, ctx) == IgnoredText(a, s, ctx) + IgnoredText(b, RenderEnd(a, s), ctx)
  {
    if a == [] {
      assert a + b == b;
    } else {
      ConsConcat(a, b);
      IgnoredTextConcat(a[1..], b, if Ignored(a[0], s) then s else Past(a[0].op, s), ctx);
    }
  }

  /** Header deletions that stay in the header never cost a body lump. */
  lemma HeaderStaysNothingLost(calls: seq<Call>, eoh: Option<nat>, len: nat, ctx: Ctx)
    requires Run(calls, eoh, len).Some? && StaysInHeader(calls, eoh)
    ensures var st := Run(calls, eoh, len).value;
            NothingLost(Fix(st.body, 0), HeaderEnd(st.hdr), ctx)
            && IgnoredDelta(Fix(st.body, 0), HeaderEnd(st.hdr), ctx) == 0
  {
    var st := Run(calls, eoh, len).value;
    RunFenced(calls, eoh, len);
    EveryRun(calls, eoh, len);
    FixDisjoint(st.body, 0, len);
    if eoh.Some? {
      FixDisjoint(st.hdr, 0, eoh.value);
      RenderEndInRange(Fix(st.hdr, 0), 0, eoh.value);
      FixMembersBehind(st.body, 0, eoh.value);
    } else {
      FixFree(st.body, 0);
    }
    assert forall t :: t in Fix(st.body, 0) ==> !Ignored(t, HeaderEnd(st.hdr));
    NoneIgnored(Fix(st.body, 0), 0, HeaderEnd(st.hdr), ctx);
  }

  lemma {:induction false} NoneIgnored(l: seq<Lump>, s: nat, e: nat, ctx: Ctx)
    requires Disjoint(l, s) && forall t :: t in l ==> !Ignored(t, e)
    ensures IgnoredDelta(l, e, ctx) == 0
  {
    if l != [] {
      assert l[0] in l;
      if l[0].Anchored() {
        DisjointIgnoresNothing(l[1..], Past(l[0].op, s), ctx);
      } else {
        NoneIgnored(l[1..], s, e, ctx);
      }
    }
  }
}
