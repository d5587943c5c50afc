/** Lifetime of DNS cache entries shared between processes: reference counts,
    the table lock, and the steps between which other processes may run. */
module DnsLifetime {
  import opened Options

  type Id = nat

  datatype Entry = Entry(refcnt: int, linked: bool, alive: bool)

  /** Where a process is inside a multi-step operation. */
  datatype Pc =
    | Idle
    | Found(e: Id)        // dns_hash_get: looked up under the lock, not yet counted
    | Removing(e: Id)     // _dns_hash_remove: unlinked, not yet uncounted
    | Adding(e: Id)       // counted, not yet linked; dns_cache_add has still to take the lock
    | Destroying(e: Id)   // the count reached zero, not yet freed

  /** A process: its position, the references it will have to put, and the entries
      it has created and not yet offered to the table. */
  datatype Proc = Proc(pc: Pc, handles: multiset<Id>, drafts: set<Id>)

  datatype State = State(entries: map<Id, Entry>, lock: Option<nat>, procs: seq<Proc>)

  datatype Op =
    | Lock
    | Unlock
    | Find(e: Id)               // a linked entry matches
    | Count                     // atomic_inc of the entry found
    | Unlink(e: Id)             // clist_rm from bucket and LRU list
    | Uncount                   // atomic_dec_and_test of the entry unlinked
    | Put(e: Id)                // dns_hash_put of a held reference
    | Free                      // dns_destroy_entry
    | Create(e: Id, keep: bool) // a fresh entry, with or without a returned reference
    | Offer(e: Id)              // atomic_inc in dns_cache_add, and under the lock in dns_cache_add_unsafe
    | Link                      // clist_append to bucket and LRU list
    | Refuse(e: Id)             // adding failed: destroy if nobody counts it
    | Ref(e: Id)                // dns_srv_handle_ref on a held reference
    | Hand(e: Id, to: nat)      // a held reference changes hands

  datatype Step = Step(p: nat, op: Op)

  // ----- Steps

  predicate Holds(s: State, p: nat)
  {
    s.lock == Some(p)
  }

  predicate Enabled(s: State, step: Step) {
    step.p < |s.procs| &&
    var pr := s.procs[step.p];
    match step.op
    case Lock => (pr.pc.Idle? || pr.pc.Adding?) && s.lock.None?
    case Unlock => pr.pc.Idle? && Holds(s, step.p)
    case Find(e) => pr.pc.Idle? && Holds(s, step.p) && e in s.entries && s.entries[e].linked
    case Count => pr.pc.Found? && pr.pc.e in s.entries
    case Unlink(e) => pr.pc.Idle? && Holds(s, step.p) && e in s.entries && s.entries[e].linked
    case Uncount => pr.pc.Removing? && pr.pc.e in s.entries
    case Put(e) => pr.pc.Idle? && e in pr.handles && e !in pr.drafts && e in s.entries
    case Free => pr.pc.Destroying? && pr.pc.e in s.entries
    case Create(e, _) => pr.pc.Idle? && e !in s.entries
    case Offer(e) => pr.pc.Idle? && e in pr.drafts && e in s.entries
    case Link => pr.pc.Adding? && Holds(s, step.p) && pr.pc.e in s.entries
    case Refuse(e) => pr.pc.Idle? && e in pr.drafts && e in s.entries
    case Ref(e) => pr.pc.Idle? && e in pr.handles && e !in pr.drafts && e in s.entries
    case Hand(e, to) => pr.pc.Idle? && e in pr.handles && e !in pr.drafts && to < |s.procs| && to != step.p
  }

  function WithProc(s: State, p: nat, pr: Proc): State
    requires p < |s.procs|
  {
    s.(procs := s.procs[p := pr])
  }

  function WithEntry(s: State, e: Id, en: Entry): State {
    s.(entries := s.entries[e := en])
  }

  /** Decrement, and who then has to free. */
  function Decremented(s: State, p: nat, e: Id, pr: Proc): State
    requires p < |s.procs| && e in s.entries
  {
    var n := s.entries[e].refcnt - 1;
    WithProc(WithEntry(s, e, s.entries[e].(refcnt := n)), p, pr.(pc := if n == 0 then Destroying(e) else Idle))
  }

  function Next(s: State, step: Step): State
    requires Enabled(s, step)
  {
    var p, pr := step.p, s.procs[step.p];
    match step.op
    case Lock => s.(lock := Some(p))
    case Unlock => s.(lock := None)
    case Find(e) => WithProc(s, p, pr.(pc := Found(e)))
    case Count =>
      var e := pr.pc.e;
      WithProc(WithEntry(s, e, s.entries[e].(refcnt := s.entries[e].refcnt + 1)), p,
               pr.(pc := Idle, handles := pr.handles + multiset{e}))
    case Unlink(e) => WithProc(WithEntry(s, e, s.entries[e].(linked := false)), p, pr.(pc := Removing(e)))
    case Uncount => Decremented(s, p, pr.pc.e, pr)
    case Put(e) => Decremented(s, p, e, pr.(handles := pr.handles - multiset{e}))
    case Free => WithProc(WithEntry(s, pr.pc.e, s.entries[pr.pc.e].(alive := false)), p, pr.(pc := Idle))
    case Create(e, keep) =>
      WithProc(WithEntry(s, e, Entry(if keep then 1 else 0, false, true)), p,
               pr.(drafts := pr.drafts + {e}, handles := if keep then pr.handles + multiset{e} else pr.handles))
    case Offer(e) =>
      WithProc(WithEntry(s, e, s.entries[e].(refcnt := s.entries[e].refcnt + 1)), p,
               pr.(pc := Adding(e), drafts := pr.drafts - {e}))
    case Link => WithProc(WithEntry(s, pr.pc.e, s.entries[pr.pc.e].(linked := true)), p, pr.(pc := Idle))
    case Refuse(e) =>
      WithProc(s, p, pr.(drafts := pr.drafts - {e}, pc := if s.entries[e].refcnt == 0 then Destroying(e) else Idle))
    case Ref(e) =>
      WithProc(WithEntry(s, e, s.entries[e].(refcnt := s.entries[e].refcnt + 1)), p,
               pr.(handles := pr.handles + multiset{e}))
    case Hand(e, to) =>
      var s' := WithProc(s, p, pr.(handles := pr.handles - multiset{e}));
      WithProc(s', to, s'.procs[to].(handles := s'.procs[to].handles + multiset{e}))
  }

  function Start(n: nat): State {
    State(map[], None, seq(n, _ => Proc(Idle, multiset{}, {})))
  }

  /** Every interleaving: any process may take any enabled step. */
  predicate Run(s: State, steps: seq<Step>, t: State)
    decreases |steps|
  {
    if steps == [] then s == t else Enabled(s, steps[0]) && Run(Next(s, steps[0]), steps[1..], t)
  }

  // ----- The accounting

  /** References to `e` that a process answers for. */
  function Share(pr: Proc, e: Id): nat {
    pr.handles[e] + (if pr.pc == Removing(e) || pr.pc == Adding(e) then 1 else 0)
  }

  function Total(procs: seq<Proc>, e: Id): nat {
    if procs == [] then 0 else Share(procs[0], e) + Total(procs[1..], e)
  }

  /** The process that alone decides about an entry: before it is linked, or once
      nothing counts it any more. */
  predicate Owns(pr: Proc, e: Id) {
    e in pr.drafts || pr.pc == Adding(e) || pr.pc == Destroying(e)
  }

  ghost predicate EntryInv(s: State, e: Id)
    requires e in s.entries
  {
    var en := s.entries[e];
    && (en.alive ==> en.refcnt == (if en.linked then 1 else 0) + Total(s.procs, e))
    && (en.linked ==> en.alive)
    && (!en.alive ==> Total(s.procs, e) == 0)
    && (en.alive && en.refcnt == 0 ==> exists i :: 0 <= i < |s.procs| && Owns(s.procs[i], e))
  }

  ghost predicate ProcInv(s: State, i: nat)
    requires i < |s.procs|
  {
    var pr := s.procs[i];
    && (forall e :: e in pr.handles ==> e in s.entries)
    && (forall e :: e in pr.drafts ==>
          e in s.entries && s.entries[e].alive && !s.entries[e].linked && s.entries[e].refcnt == pr.handles[e]
          && pr.pc != Adding(e) && pr.pc != Destroying(e))
    && match pr.pc
       case Idle => true
       case Found(e) => Holds(s, i) && e in s.entries && s.entries[e].linked
       case Removing(e) => Holds(s, i) && e in s.entries && !s.entries[e].linked
       case Adding(e) => e in s.entries && !s.entries[e].linked && s.entries[e].refcnt == pr.handles[e] + 1
       case Destroying(e) => e in s.entries && s.entries[e].alive && !s.entries[e].linked && s.entries[e].refcnt == 0
  }

  ghost predicate Inv(s: State) {
    && (s.lock.Some? ==> s.lock.value < |s.procs|)
    && (forall e :: e in s.entries ==> EntryInv(s, e))
    && (forall i :: 0 <= i < |s.procs| ==> ProcInv(s, i))
    && (forall i, j, e :: 0 <= i < j < |s.procs| && Owns(s.procs[i], e) ==> !Owns(s.procs[j], e))
  }

  lemma {:induction false} TotalUpdated(procs: seq<Proc>, p: nat, pr: Proc, e: Id)
    requires p < |procs|
    ensures Total(procs[p := pr], e) == Total(procs, e) - Share(procs[p], e) + Share(pr, e)
  {
    if p == 0 {
      assert procs[0 := pr][1..] == procs[1..];
    } else {
      TotalUpdated(procs[1..], p - 1, pr, e);
      assert procs[p := pr][1..] == procs[1..][p - 1 := pr];
    }
  }

  lemma {:induction false} ShareInTotal(procs: seq<Proc>, p: nat, e: Id)
    requires p < |procs|
    ensures Share(procs[p], e) <= Total(procs, e)
  {
    if p > 0 { ShareInTotal(procs[1..], p - 1, e); }
  }

  lemma {:induction false} TwoShares(procs: seq<Proc>, p: nat, q: nat, e: Id)
    requires p < q < |procs|
    ensures Share(procs[p], e) + Share(procs[q], e) <= Total(procs, e)
  {
    if p == 0 {
      ShareInTotal(procs[1..], q - 1, e);
    } else {
      TwoShares(procs[1..], p - 1, q - 1, e);
    }
  }

  lemma {:induction false} NoShares(procs: seq<Proc>, e: Id)
    requires forall i :: 0 <= i < |procs| ==> Share(procs[i], e) == 0
    ensures Total(procs, e) == 0
  {
    if procs != [] { NoShares(procs[1..], e); }
  }

  // ----- A change of one entry and one process

  function Touched(s: State, p: nat, pr: Proc, e: Id, en: Entry): State
    requires p < |s.procs|
  {
    WithProc(WithEntry(s, e, en), p, pr)
  }

  ghost predicate OthersOwn(s: State, p: nat, e: Id) {
    exists i :: 0 <= i < |s.procs| && i != p && Owns(s.procs[i], e)
  }

  /** What a change of entry `e` by process `p` has to respect. */
  ghost predicate Fair(s: State, p: nat, pr: Proc, e: Id, en: Entry)
    requires p < |s.procs|
  {
    var old_ := s.procs[p];
    var total := Total(s.procs, e) - Share(old_, e) + Share(pr, e);
    // only `e` changes hands
    && (forall x :: x != e ==>
        Share(pr, x) == Share(old_, x) && pr.handles[x] == old_.handles[x] && (Owns(pr, x) <==> Owns(old_, x)))
    // the count is right, and an uncounted entry has this owner
    && (en.alive ==> en.refcnt == (if en.linked then 1 else 0) + total)
    && (en.linked ==> en.alive)
    && (!en.alive ==> total == 0)
    && (en.alive && en.refcnt == 0 ==> Owns(pr, e))
    // other owners see no change, and are not joined
    && (OthersOwn(s, p, e) ==> e in s.entries && en == s.entries[e] && !Owns(pr, e))
    // links change only under the lock
    && (e in s.entries && en.linked != s.entries[e].linked ==> Holds(s, p))
  }

  lemma TouchedEntry(s: State, p: nat, pr: Proc, e: Id, en: Entry, x: Id)
    requires Inv(s) && p < |s.procs| && Fair(s, p, pr, e, en)
    requires x == e || x in s.entries
    ensures EntryInv(Touched(s, p, pr, e, en), x)
  {
    var t := Touched(s, p, pr, e, en);
    TotalUpdated(s.procs, p, pr, x);
    if x == e {
      assert t.procs[p] == pr;
    } else {
      assert EntryInv(s, x);
      if s.entries[x].alive && s.entries[x].refcnt == 0 {
        var i :| 0 <= i < |s.procs| && Owns(s.procs[i], x);
        assert Owns(t.procs[i], x);
      }
    }
  }

  lemma TouchedOther(s: State, p: nat, pr: Proc, e: Id, en: Entry, i: nat)
    requires Inv(s) && p < |s.procs| && Fair(s, p, pr, e, en) && i < |s.procs| && i != p
    ensures ProcInv(Touched(s, p, pr, e, en), i)
  {
    assert ProcInv(s, i);
    if Owns(s.procs[i], e) { assert OthersOwn(s, p, e); }
  }

  lemma TouchedOwners(s: State, p: nat, pr: Proc, e: Id, en: Entry)
    requires Inv(s) && p < |s.procs| && Fair(s, p, pr, e, en)
    ensures var t := Touched(s, p, pr, e, en);
            forall i, j, x :: 0 <= i < j < |t.procs| && Owns(t.procs[i], x) ==> !Owns(t.procs[j], x)
  {
    var t := Touched(s, p, pr, e, en);
    forall i, j, x | 0 <= i < j < |t.procs| && Owns(t.procs[i], x) ensures !Owns(t.procs[j], x) {
      if x == e && i == p && Owns(t.procs[j], e) { assert OthersOwn(s, p, e); }
      if x == e && j == p && Owns(t.procs[j], e) { assert Owns(s.procs[i], e) && OthersOwn(s, p, e); }
    }
  }

  lemma TouchedKeepsInv(s: State, p: nat, pr: Proc, e: Id, en: Entry)
    requires Inv(s) && p < |s.procs| && Fair(s, p, pr, e, en)
    requires ProcInv(Touched(s, p, pr, e, en), p)
    ensures Inv(Touched(s, p, pr, e, en))
  {
    var t := Touched(s, p, pr, e, en);
    forall x | x in t.entries ensures EntryInv(t, x) { TouchedEntry(s, p, pr, e, en, x); }
    forall i | 0 <= i < |t.procs| ensures ProcInv(t, i) {
      if i != p { TouchedOther(s, p, pr, e, en, i); }
    }
    TouchedOwners(s, p, pr, e, en);
  }

  /** Another process's references leave room for this one's. */
  lemma OthersShare(s: State, p: nat, i: nat, e: Id)
    requires p < |s.procs| && i < |s.procs| && i != p
    ensures Share(s.procs[p], e) + Share(s.procs[i], e) <= Total(s.procs, e)
  {
    if i < p { TwoShares(s.procs, i, p, e); } else { TwoShares(s.procs, p, i, e); }
  }

  /** An entry owned elsewhere is not counted here. */
  lemma OwnedElsewhere(s: State, p: nat, e: Id)
    requires Inv(s) && p < |s.procs| && e in s.entries && OthersOwn(s, p, e)
    ensures Share(s.procs[p], e) == 0 && !s.entries[e].linked && !Owns(s.procs[p], e)
  {
    var i :| 0 <= i < |s.procs| && i != p && Owns(s.procs[i], e);
    assert ProcInv(s, i) && EntryInv(s, e);
    OthersShare(s, p, i, e);
    ShareInTotal(s.procs, i, e);
  }

  // ----- Every step keeps the accounting

  lemma LockStep(s: State, step: Step)
    requires Inv(s) && Enabled(s, step) && (step.op.Lock? || step.op.Unlock?)
    ensures Inv(Next(s, step))
  {
    var t := Next(s, step);
    forall e | e in t.entries ensures EntryInv(t, e) { assert EntryInv(s, e); }
    forall i | 0 <= i < |t.procs| ensures ProcInv(t, i) { assert ProcInv(s, i); }
  }

  lemma FindStep(s: State, step: Step)
    requires Inv(s) && Enabled(s, step) && step.op.Find?
    ensures Inv(Next(s, step))
  {
    var p, e := step.p, step.op.e;
    assert ProcInv(s, p) && EntryInv(s, e);
    if OthersOwn(s, p, e) { OwnedElsewhere(s, p, e); }
    assert s.entries[e := s.entries[e]] == s.entries;
    TouchedKeepsInv(s, p, Next(s, step).procs[p], e, s.entries[e]);
  }

  /** Counting the entry found, which is linked. */
  lemma CountStep(s: State, step: Step)
    requires Inv(s) && Enabled(s, step) && step.op.Count?
    ensures Inv(Next(s, step))
  {
    var p := step.p;
    var e := s.procs[p].pc.e;
    assert ProcInv(s, p) && EntryInv(s, e);
    if OthersOwn(s, p, e) { OwnedElsewhere(s, p, e); }
    TouchedKeepsInv(s, p, Next(s, step).procs[p], e, Next(s, step).entries[e]);
  }

  /** Counting an entry that is held. */
  lemma RefStep(s: State, step: Step)
    requires Inv(s) && Enabled(s, step) && step.op.Ref?
    ensures Inv(Next(s, step))
  {
    var p, e := step.p, step.op.e;
    assert ProcInv(s, p) && EntryInv(s, e);
    ShareInTotal(s.procs, p, e);
    if OthersOwn(s, p, e) { OwnedElsewhere(s, p, e); }
    TouchedKeepsInv(s, p, Next(s, step).procs[p], e, Next(s, step).entries[e]);
  }

  lemma UnlinkStep(s: State, step: Step)
    requires Inv(s) && Enabled(s, step) && step.op.Unlink?
    ensures Inv(Next(s, step))
  {
    var p, e := step.p, step.op.e;
    assert ProcInv(s, p) && EntryInv(s, e);
    if OthersOwn(s, p, e) { OwnedElsewhere(s, p, e); }
    TouchedKeepsInv(s, p, Next(s, step).procs[p], e, Next(s, step).entries[e]);
  }

  lemma UncountStep(s: State, step: Step)
    requires Inv(s) && Enabled(s, step) && step.op.Uncount?
    ensures Inv(Next(s, step))
  {
    var p := step.p;
    var e := s.procs[p].pc.e;
    assert ProcInv(s, p) && EntryInv(s, e);
    ShareInTotal(s.procs, p, e);
    if OthersOwn(s, p, e) { OwnedElsewhere(s, p, e); }
    TouchedKeepsInv(s, p, Next(s, step).procs[p], e, Next(s, step).entries[e]);
  }

  lemma PutStep(s: State, step: Step)
    requires Inv(s) && Enabled(s, step) && step.op.Put?
    ensures Inv(Next(s, step))
  {
    var p, e := step.p, step.op.e;
    assert ProcInv(s, p) && EntryInv(s, e);
    ShareInTotal(s.procs, p, e);
    if OthersOwn(s, p, e) { OwnedElsewhere(s, p, e); }
    TouchedKeepsInv(s, p, Next(s, step).procs[p], e, Next(s, step).entries[e]);
  }

  lemma FreeStep(s: State, step: Step)
    requires Inv(s) && Enabled(s, step) && step.op.Free?
    ensures Inv(Next(s, step))
  {
    var p := step.p;
    var e := s.procs[p].pc.e;
    assert ProcInv(s, p) && EntryInv(s, e);
    ShareInTotal(s.procs, p, e);
    if OthersOwn(s, p, e) { OwnedElsewhere(s, p, e); }
    TouchedKeepsInv(s, p, Next(s, step).procs[p], e, Next(s, step).entries[e]);
  }

  lemma Unheard(s: State, e: Id)
    requires Inv(s) && e !in s.entries
    ensures Total(s.procs, e) == 0 && forall i :: 0 <= i < |s.procs| ==>
            !Owns(s.procs[i], e) && s.procs[i].handles[e] == 0
  {
    forall i | 0 <= i < |s.procs| ensures Share(s.procs[i], e) == 0 && !Owns(s.procs[i], e) { assert ProcInv(s, i); }
    NoShares(s.procs, e);
  }

  lemma CreateStep(s: State, step: Step)
    requires Inv(s) && Enabled(s, step) && step.op.Create?
    ensures Inv(Next(s, step))
  {
    var p, e := step.p, step.op.e;
    assert ProcInv(s, p);
    Unheard(s, e);
    TouchedKeepsInv(s, p, Next(s, step).procs[p], e, Next(s, step).entries[e]);
  }

  lemma OfferStep(s: State, step: Step)
    requires Inv(s) && Enabled(s, step) && (step.op.Offer? || step.op.Refuse?)
    ensures Inv(Next(s, step))
  {
    var p, e := step.p, step.op.e;
    assert ProcInv(s, p) && EntryInv(s, e);
    ShareInTotal(s.procs, p, e);
    if OthersOwn(s, p, e) { OwnedElsewhere(s, p, e); }
    assert s.entries[e := s.entries[e]] == s.entries;
    TouchedKeepsInv(s, p, Next(s, step).procs[p], e, Next(s, step).entries[e]);
  }

  lemma LinkStep(s: State, step: Step)
    requires Inv(s) && Enabled(s, step) && step.op.Link?
    ensures Inv(Next(s, step))
  {
    var p := step.p;
    var e := s.procs[p].pc.e;
    assert ProcInv(s, p) && EntryInv(s, e);
    ShareInTotal(s.procs, p, e);
    if OthersOwn(s, p, e) { OwnedElsewhere(s, p, e); }
    TouchedKeepsInv(s, p, Next(s, step).procs[p], e, Next(s, step).entries[e]);
  }

  lemma HandKeepsTotals(s: State, step: Step, x: Id)
    requires Enabled(s, step) && step.op.Hand?
    ensures Total(Next(s, step).procs, x) == Total(s.procs, x)
  {
    var p, q, t := step.p, step.op.to, Next(s, step);
    var s' := WithProc(s, p, s.procs[p].(handles := s.procs[p].handles - multiset{step.op.e}));
    TotalUpdated(s.procs, p, s'.procs[p], x);
    TotalUpdated(s'.procs, q, t.procs[q], x);
  }

  /** The process that gives a reference away. */
  lemma HandKeepsGiver(s: State, step: Step)
    requires Inv(s) && Enabled(s, step) && step.op.Hand?
    ensures ProcInv(Next(s, step), step.p)
  {
    assert ProcInv(s, step.p);
  }

  /** The process that gets it has not made the entry, nor is it about to free or link it. */
  lemma HandKeepsTaker(s: State, step: Step)
    requires Inv(s) && Enabled(s, step) && step.op.Hand?
    ensures ProcInv(Next(s, step), step.op.to)
  {
    var p, q, e := step.p, step.op.to, step.op.e;
    assert ProcInv(s, q) && ProcInv(s, p) && e in s.entries;
    ShareInTotal(s.procs, p, e);
    if Owns(s.procs[q], e) {
      assert OthersOwn(s, p, e);
      OwnedElsewhere(s, p, e);
    }
  }

  lemma HandKeepsProc(s: State, step: Step, i: nat)
    requires Inv(s) && Enabled(s, step) && step.op.Hand? && i < |s.procs|
    ensures ProcInv(Next(s, step), i)
    ensures forall x :: Owns(Next(s, step).procs[i], x) <==> Owns(s.procs[i], x)
  {
    if i == step.p {
      HandKeepsGiver(s, step);
    } else if i == step.op.to {
      HandKeepsTaker(s, step);
    } else {
      assert ProcInv(s, i) && Next(s, step).procs[i] == s.procs[i];
    }
  }

  lemma HandStep(s: State, step: Step)
    requires Inv(s) && Enabled(s, step) && step.op.Hand?
    ensures Inv(Next(s, step))
  {
    var t := Next(s, step);
    forall i | 0 <= i < |t.procs|
      ensures ProcInv(t, i) && forall x :: Owns(t.procs[i], x) <==> Owns(s.procs[i], x)
    {
      HandKeepsProc(s, step, i);
    }
    forall x | x in t.entries ensures EntryInv(t, x) {
      assert EntryInv(s, x);
      HandKeepsTotals(s, step, x);
      if s.entries[x].alive && s.entries[x].refcnt == 0 {
        var i :| 0 <= i < |s.procs| && Owns(s.procs[i], x);
        assert Owns(t.procs[i], x);
      }
    }
  }

  lemma StepKeepsInv(s: State, step: Step)
    requires Inv(s) && Enabled(s, step)
    ensures Inv(Next(s, step))
  {
    match step.op
    case Lock => LockStep(s, step);
    case Unlock => LockStep(s, step);
    case Find(_) => FindStep(s, step);
    case Count => CountStep(s, step);
    case Ref(_) => RefStep(s, step);
    case Unlink(_) => UnlinkStep(s, step);
    case Uncount => UncountStep(s, step);
    case Put(_) => PutStep(s, step);
    case Free => FreeStep(s, step);
    case Create(_, _) => CreateStep(s, step);
    case Offer(_) => OfferStep(s, step);
    case Refuse(_) => OfferStep(s, step);
    case Link => LinkStep(s, step);
    case Hand(_, _) => HandStep(s, step);
  }

  lemma StartInv(n: nat)
    ensures Inv(Start(n))
  {
  }

  lemma {:induction false} RunKeepsInv(s: State, steps: seq<Step>, t: State)
    requires Inv(s) && Run(s, steps, t)
    ensures Inv(t)
    decreases |steps|
  {
    if steps != [] {
      StepKeepsInv(s, steps[0]);
      RunKeepsInv(Next(s, steps[0]), steps[1..], t);
    }
  }

  // ----- Main theorems: every interleaving of any number of processes

  /** The count of every published entry is one if it is linked plus the references
      outstanding, and nothing that is linked, held or under way is freed. */
  lemma CountsAreExact(n: nat, steps: seq<Step>, t: State, e: Id)
    requires Run(Start(n), steps, t) && e in t.entries
    ensures t.entries[e].alive ==> t.entries[e].refcnt == (if t.entries[e].linked then 1 else 0) + Total(t.procs, e)
    ensures !t.entries[e].alive ==> !t.entries[e].linked && forall i :: 0 <= i < |t.procs| ==> Share(t.procs[i], e) == 0
  {
    StartInv(n);
    RunKeepsInv(Start(n), steps, t);
    assert EntryInv(t, e);
    forall i | 0 <= i < |t.procs| ensures Share(t.procs[i], e) <= Total(t.procs, e) { ShareInTotal(t.procs, i, e); }
  }

  /** The entry whose memory a step reads or writes. */
  function Accessed(s: State, step: Step): Option<Id>
    requires Enabled(s, step)
  {
    var pr := s.procs[step.p];
    match step.op
    case Lock | Unlock | Create(_, _) | Hand(_, _) => None
    case Find(e) => Some(e)
    case Unlink(e) => Some(e)
    case Put(e) => Some(e)
    case Offer(e) => Some(e)
    case Refuse(e) => Some(e)
    case Ref(e) => Some(e)
    case Count | Uncount | Free | Link => Some(pr.pc.e)
  }

  /** No step of any run touches an entry that has been freed. */
  lemma NoUseAfterFree(n: nat, steps: seq<Step>, t: State, step: Step)
    requires Run(Start(n), steps, t) && Enabled(t, step) && Accessed(t, step).Some?
    ensures var e := Accessed(t, step).value; e in t.entries && t.entries[e].alive
  {
    StartInv(n);
    RunKeepsInv(Start(n), steps, t);
    var e := Accessed(t, step).value;
    assert ProcInv(t, step.p);
    assert e in t.entries && EntryInv(t, e);
    ShareInTotal(t.procs, step.p, e);
  }

  /** An entry is freed only when the table has let go of it and nobody holds it. */
  lemma FreedOnlyWhenUnreferenced(n: nat, steps: seq<Step>, t: State, step: Step)
    requires Run(Start(n), steps, t) && Enabled(t, step) && step.op.Free?
    ensures var e := t.procs[step.p].pc.e;
            !t.entries[e].linked && forall i :: 0 <= i < |t.procs| ==> e !in t.procs[i].handles
  {
    StartInv(n);
    RunKeepsInv(Start(n), steps, t);
    var e := t.procs[step.p].pc.e;
    assert ProcInv(t, step.p) && EntryInv(t, e);
    forall i | 0 <= i < |t.procs| ensures e !in t.procs[i].handles { ShareInTotal(t.procs, i, e); }
  }

  /** How often a run frees an entry. */
  function Frees(s: State, steps: seq<Step>, e: Id): nat
    decreases |steps|
  {
    if steps == [] || !Enabled(s, steps[0]) then 0
    else
      (if steps[0].op.Free? && s.procs[steps[0].p].pc.e == e then 1 else 0) + Frees(Next(s, steps[0]), steps[1..], e)
  }

  function Dead(s: State, e: Id): nat {
    if e in s.entries && !s.entries[e].alive then 1 else 0
  }

  lemma FreeIsDeath(s: State, step: Step, e: Id)
    requires Inv(s) && Enabled(s, step)
    ensures (if step.op.Free? && s.procs[step.p].pc.e == e then 1 else 0) + Dead(s, e) == Dead(Next(s, step), e)
  {
    assert ProcInv(s, step.p);
    if e in s.entries { assert EntryInv(s, e); }
  }

  lemma {:induction false} FreesAreDeaths(s: State, steps: seq<Step>, t: State, e: Id)
    requires Inv(s) && Run(s, steps, t)
    ensures Frees(s, steps, e) + Dead(s, e) == Dead(t, e)
    decreases |steps|
  {
    if steps != [] {
      StepKeepsInv(s, steps[0]);
      FreeIsDeath(s, steps[0], e);
      FreesAreDeaths(Next(s, steps[0]), steps[1..], t, e);
    }
  }

  /** No entry is freed twice. */
  lemma FreedAtMostOnce(n: nat, steps: seq<Step>, t: State, e: Id)
    requires Run(Start(n), steps, t)
    ensures Frees(Start(n), steps, e) <= 1
    ensures Frees(Start(n), steps, e) == 1 <==> e in t.entries && !t.entries[e].alive
  {
    StartInv(n);
    FreesAreDeaths(Start(n), steps, t, e);
  }

  predicate Quiet(s: State) {
    forall i :: 0 <= i < |s.procs| ==> s.procs[i] == Proc(Idle, multiset{}, {})
  }

  /** Nothing leaks: once every process has finished and put what it held, the
      entries that are left are exactly those in the table, counted once; every
      other entry ever created has been freed exactly once. */
  lemma QuietMeansNoLeak(n: nat, steps: seq<Step>, t: State, e: Id)
    requires Run(Start(n), steps, t) && Quiet(t) && e in t.entries
    ensures t.entries[e].alive <==> t.entries[e].linked
    ensures t.entries[e].linked ==> t.entries[e].refcnt == 1
    ensures !t.entries[e].linked <==> Frees(Start(n), steps, e) == 1
  {
    StartInv(n);
    RunKeepsInv(Start(n), steps, t);
    FreedAtMostOnce(n, steps, t, e);
    assert EntryInv(t, e);
    NoShares(t.procs, e);
  }

  // ----- No dead ends

  /** What a process has still to do: more for a position than for what it leads to. */
  function Load(pr: Proc): nat {
    2 * |pr.handles| + 2 * |pr.drafts|
    + match pr.pc
      case Idle => 0
      case Destroying(_) => 1
      case Removing(_) => 2
      case Found(_) => 3
      case Adding(_) => 2
  }

  function Loads(procs: seq<Proc>): nat {
    if procs == [] then 0 else Load(procs[0]) + Loads(procs[1..])
  }

  function Work(s: State): nat {
    Loads(s.procs) + if s.lock.Some? then 1 else 0
  }

  lemma {:induction false} LoadsUpdated(procs: seq<Proc>, p: nat, pr: Proc)
    requires p < |procs|
    ensures Loads(procs[p := pr]) == Loads(procs) - Load(procs[p]) + Load(pr)
  {
    if p == 0 {
      assert procs[0 := pr][1..] == procs[1..];
    } else {
      LoadsUpdated(procs[1..], p - 1, pr);
      assert procs[p := pr][1..] == procs[1..][p - 1 := pr];
    }
  }

  lemma {:induction false} NoLoads(procs: seq<Proc>)
    requires Loads(procs) == 0
    ensures forall i :: 0 <= i < |procs| ==> procs[i] == Proc(Idle, multiset{}, {})
  {
    if procs != [] {
      NoLoads(procs[1..]);
      assert forall i :: 0 < i < |procs| ==> procs[i] == procs[1..][i - 1];
    }
  }

  lemma {:induction false} SomeLoad(procs: seq<Proc>) returns (p: nat)
    requires Loads(procs) > 0
    ensures p < |procs| && Load(procs[p]) > 0
  {
    p := 0;
    if Load(procs[0]) == 0 {
      p := SomeLoad(procs[1..]);
      p := p + 1;
    }
  }

  lemma {:induction false} RunConcat(s: State, a: seq<Step>, t: State, b: seq<Step>, u: State)
    requires Run(s, a, t) && Run(t, b, u)
    ensures Run(s, a + b, u)
    decreases |a|
  {
    if a == [] {
      assert a + b == b;
    } else {
      assert (a + b)[0] == a[0] && (a + b)[1..] == a[1..] + b;
      RunConcat(Next(s, a[0]), a[1..], t, b, u);
    }
  }

  lemma OneStep(s: State, step: Step)
    requires Enabled(s, step)
    ensures Run(s, [step], Next(s, step))
  {
    assert [step][1..] == [];
  }

  /** A step that leaves its process with less to do. */
  lemma LessWork(s: State, step: Step)
    requires Enabled(s, step) && !step.op.Hand?
    ensures Work(Next(s, step)) == Work(s) - Load(s.procs[step.p]) + Load(Next(s, step).procs[step.p])
                                   + (if step.op.Lock? then 1 else if step.op.Unlock? then -1 else 0)
  {
    LoadsUpdated(s.procs, step.p, Next(s, step).procs[step.p]);
    assert s.procs[step.p := s.procs[step.p]] == s.procs;
  }

  /** A step other than these two leaves its process with less to do, unless it starts
      something new. */
  lemma LoadDrops(s: State, step: Step)
    requires Enabled(s, step)
    requires step.op.Count? || step.op.Uncount? || step.op.Free? || step.op.Link? || step.op.Refuse? || step.op.Put?
    ensures Load(Next(s, step).procs[step.p]) < Load(s.procs[step.p])
  {
    var pr := s.procs[step.p];
    match step.op {
      case Count => assert |pr.handles + multiset{pr.pc.e}| == |pr.handles| + 1;
      case Refuse(e) => assert |pr.drafts - {e}| == |pr.drafts| - 1;
      case Put(e) => assert |pr.handles - multiset{e}| == |pr.handles| - 1;
      case _ =>
    }
  }

  /** What a process may do next; in front of a link it may have to take the lock. */
  lemma NextStep(s: State, p: nat) returns (step: Step)
    requires Inv(s) && p < |s.procs| && (s.lock.None? || Holds(s, p)) && (Load(s.procs[p]) > 0 || Holds(s, p))
    ensures step.p == p && Enabled(s, step)
    ensures if s.procs[p].pc.Adding? && s.lock.None? then step.op.Lock?
            else step.op.Count? || step.op.Uncount? || step.op.Free? || step.op.Link? || step.op.Refuse? || step.op.Put?
                 || (step.op.Unlock? && s.lock.Some?)
  {
    var pr := s.procs[p];
    assert ProcInv(s, p);
    match pr.pc {
      case Found(_) => step := Step(p, Count);
      case Removing(_) => step := Step(p, Uncount);
      case Destroying(_) => step := Step(p, Free);
      case Adding(_) => step := Step(p, if Holds(s, p) then Link else Lock);
      case Idle =>
        if Holds(s, p) {
          step := Step(p, Unlock);
        } else if pr.drafts != {} {
          var e :| e in pr.drafts;
          step := Step(p, Refuse(e));
        } else {
          var e :| e in pr.handles;
          step := Step(p, Put(e));
        }
    }
  }

  lemma Advance(s: State, p: nat) returns (steps: seq<Step>, t: State)
    requires Inv(s) && p < |s.procs| && (s.lock.None? || Holds(s, p)) && (Load(s.procs[p]) > 0 || Holds(s, p))
    ensures Run(s, steps, t) && Inv(t) && Work(t) < Work(s)
  {
    var step := NextStep(s, p);
    OneStep(s, step);
    StepKeepsInv(s, step);
    LessWork(s, step);
    steps, t := [step], Next(s, step);
    if step.op.Lock? {
      steps, t := LockAndLink(s, p);
    } else if !step.op.Unlock? {
      LoadDrops(s, step);
    }
  }

  lemma LockAndLink(s: State, p: nat) returns (steps: seq<Step>, t: State)
    requires Inv(s) && p < |s.procs| && s.procs[p].pc.Adding? && s.lock.None?
    ensures Run(s, steps, t) && Inv(t) && Work(t) < Work(s)
  {
    var lock, link := Step(p, Lock), Step(p, Link);
    assert ProcInv(s, p);
    var mid := Next(s, lock);
    t := Next(mid, link);
    StepKeepsInv(s, lock);
    StepKeepsInv(mid, link);
    LessWork(s, lock);
    LessWork(mid, link);
    OneStep(s, lock);
    OneStep(mid, link);
    RunConcat(s, [lock], mid, [link], t);
    steps := [lock] + [link];
  }

  lemma {:induction false} CanGetQuiet(s: State) returns (steps: seq<Step>, t: State)
    requires Inv(s)
    ensures Run(s, steps, t) && Quiet(t) && t.lock == None
    decreases Work(s)
  {
    if Work(s) == 0 {
      NoLoads(s.procs);
      return [], s;
    }
    var p;
    if s.lock.Some? { p := s.lock.value; } else { p := SomeLoad(s.procs); }
    var first, mid := Advance(s, p);
    var rest;
    rest, t := CanGetQuiet(mid);
    RunConcat(s, first, mid, rest, t);
    steps := first + rest;
  }

  /** No dead ends: from every reachable state every process can finish what it has begun,
      put what it holds and give back the lock. */
  lemma NoDeadEnds(n: nat, steps: seq<Step>, t: State) returns (more: seq<Step>, u: State)
    requires Run(Start(n), steps, t)
    ensures Run(t, more, u) && Quiet(u) && u.lock == None
  {
    StartInv(n);
    RunKeepsInv(Start(n), steps, t);
    more, u := CanGetQuiet(t);
  }

  /** dns_cache_add counts first and locks then: behind its count the entry can be linked as
      soon as the lock is free, whatever has happened before. */
  lemma OfferCanLink(n: nat, steps: seq<Step>, t: State, p: nat)
    requires Run(Start(n), steps, t) && p < |t.procs| && t.procs[p].pc.Adding? && t.lock == None
    ensures var e := t.procs[p].pc.e;
            exists u :: Run(t, [Step(p, Lock), Step(p, Link)], u) && e in u.entries && u.entries[e].linked
  {
    StartInv(n);
    RunKeepsInv(Start(n), steps, t);
    assert ProcInv(t, p);
    var lock, link := Step(p, Lock), Step(p, Link);
    var u := Next(Next(t, lock), link);
    assert [lock, link][0] == lock && [lock, link][1..] == [link];
    OneStep(Next(t, lock), link);
    assert Run(t, [lock, link], u);
  }
}
