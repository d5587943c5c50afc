/** What the structured meaning of a script comes to: laws a script writer relies on. */
module ScriptLaws {
  import opened Script

  // ----- Comparing the last return code

  /** Exactly one of less, equal and greater holds, and the others are made of them. */
  lemma OneOrder(l: int, r: int)
    ensures CompNum(Lt, l, r) + CompNum(Eq, l, r) + CompNum(Gt, l, r) == 1
    ensures CompNum(Le, l, r) == CompNum(Lt, l, r) + CompNum(Eq, l, r)
    ensures CompNum(Ge, l, r) == CompNum(Gt, l, r) + CompNum(Eq, l, r)
    ensures CompNum(Ne, l, r) == CompNum(Lt, l, r) + CompNum(Gt, l, r)
    ensures forall op :: op != BadCompare ==> CompNum(op, l, r) == 0 || CompNum(op, l, r) == 1
  {
  }

  /** Equal is the same number, and less is to the left of it. */
  lemma OrderOfNumbers(l: int, r: int, k: nat)
    ensures CompNum(Eq, l, r) == 1 <==> l == r
    ensures k > 0 ==> CompNum(Lt, l, l + k) == 1 && CompNum(Gt, l + k, l) == 1
    ensures CompNum(BadCompare, l, r) < 0
  {
  }

  // ----- Conditions

  /** A condition that is true or false and comes back. */
  ghost predicate Truth(cfg: Config, e: Expr, lev: nat, w: World)
    requires lev <= ROUTE_MAX_REC_LEV
  {
    Eval(cfg, e, lev, w).0 == V(0) || Eval(cfg, e, lev, w).0 == V(1)
  }

  /** What stands in an if runs if the condition is true, what stands in its else if it is false. */
  lemma IfTakes(cfg: Config, c: Expr, t: seq<Action>, e: seq<Action>, lev: nat, w: World)
    requires lev <= ROUTE_MAX_REC_LEV && t != [] && e != []
    ensures Eval(cfg, c, lev, w).0 == V(1) ==>
              Do(cfg, If(c, t, e), lev, w) == Run(cfg, t, lev, Eval(cfg, c, lev, w).1)
    ensures Eval(cfg, c, lev, w).0 == V(0) ==>
              Do(cfg, If(c, t, e), lev, w) == Run(cfg, e, lev, Eval(cfg, c, lev, w).1)
  {
  }

  /** Turning the condition round swaps the two. */
  lemma IfNot(cfg: Config, c: Expr, t: seq<Action>, e: seq<Action>, lev: nat, w: World)
    requires lev <= ROUTE_MAX_REC_LEV && Truth(cfg, c, lev, w)
    ensures Do(cfg, If(Not(c), t, e), lev, w) == Do(cfg, If(c, e, t), lev, w)
  {
  }

  /** Numbers: 0 is false, all others are true. */
  lemma NumbersAreTruths(cfg: Config, n: int, lev: nat, w: World)
    requires lev <= ROUTE_MAX_REC_LEV
    ensures Eval(cfg, Num(n), lev, w) == (V(if n == 0 then 0 else 1), w)
  {
  }

  /** The second part of a condition counts, and is looked at, only if the first has not decided. */
  lemma Deciding(cfg: Config, l: Expr, r: Expr, lev: nat, w: World)
    requires lev <= ROUTE_MAX_REC_LEV
    ensures Eval(cfg, l, lev, w).0 == V(0) ==> Eval(cfg, And(l, r), lev, w) == Eval(cfg, l, lev, w)
    ensures Eval(cfg, l, lev, w).0 == V(1) ==> Eval(cfg, And(l, r), lev, w) == Eval(cfg, r, lev, Eval(cfg, l, lev, w).1)
    ensures Eval(cfg, l, lev, w).0 == V(1) ==> Eval(cfg, Or(l, r), lev, w) == Eval(cfg, l, lev, w)
    ensures Eval(cfg, l, lev, w).0 == V(0) ==> Eval(cfg, Or(l, r), lev, w) == Eval(cfg, r, lev, Eval(cfg, l, lev, w).1)
  {
  }

  /** De Morgan, effects included. */
  lemma DeMorgan(cfg: Config, l: Expr, r: Expr, lev: nat, w: World)
    requires lev <= ROUTE_MAX_REC_LEV && Truth(cfg, l, lev, w) && Truth(cfg, r, lev, Eval(cfg, l, lev, w).1)
    ensures Eval(cfg, Not(And(l, r)), lev, w) == Eval(cfg, Or(Not(l), Not(r)), lev, w)
    ensures Eval(cfg, Not(Or(l, r)), lev, w) == Eval(cfg, And(Not(l), Not(r)), lev, w)
    ensures Eval(cfg, Not(Not(l)), lev, w) == Eval(cfg, l, lev, w)
  {
  }

  /** An action list in a condition is true if its return code is positive, else false. */
  lemma ListAsCondition(cfg: Config, list: seq<Action>, n: int, lev: nat, w: World)
    requires lev < ROUTE_MAX_REC_LEV && list == [Drop(Script.Number(n), ReturnFlag)]
    ensures Eval(cfg, Act(list), lev, w) == (V(if n > 0 then 1 else 0), w)
  {
    assert RunSeq(cfg, list, lev + 1, w) == Do(cfg, list[0], lev + 1, w);
  }

  // ----- Returning, exiting and calling

  /** A route that returns a number goes on behind the call, with that number as the last
      return code. */
  lemma RouteReturns(cfg: Config, k: nat, n: int, rest: seq<Action>, more: seq<Action>, lev: nat, w: World)
    requires lev < ROUTE_MAX_REC_LEV && k < |cfg.routes| && more != []
    requires cfg.routes[k] == [Drop(Script.Number(n), ReturnFlag)] + rest
    ensures Do(cfg, Route(k), lev, w) == (Next(n), w.(rc := n))
    ensures RunSeq(cfg, [Route(k)] + more, lev, w) == RunSeq(cfg, more, lev, w.(rc := n))
  {
    var list := cfg.routes[k];
    assert RunSeq(cfg, list, lev + 1, w) == Do(cfg, list[0], lev + 1, w);
    assert ([Route(k)] + more)[1..] == more;
  }

  /** An exit ends the script whatever stands behind it, at every level, with its number. */
  lemma ExitEnds(cfg: Config, n: int, rest: seq<Action>, more: seq<Action>, k: nat, lev: nat, w: World)
    requires lev < ROUTE_MAX_REC_LEV && k < |cfg.routes|
    requires cfg.routes[k] == [Drop(Script.Number(n), ExitFlag)] + rest
    ensures RunSeq(cfg, [Drop(Script.Number(n), ExitFlag)] + rest, lev, w) == (Exited(n), w.(rc := n))
    ensures RunSeq(cfg, [Route(k)] + more, lev, w) == (Exited(n), w.(rc := n))
  {
    var list := cfg.routes[k];
    assert RunSeq(cfg, list, lev + 1, w) == Do(cfg, list[0], lev + 1, w);
    assert Do(cfg, ([Route(k)] + more)[0], lev, w) == (Exited(n), w.(rc := n));
  }

  /** A function is called once, where it stands; a script goes on behind it unless it answers
      0, which ends the script. */
  lemma CallOnce(cfg: Config, id: nat, more: seq<Action>, lev: nat, w: World)
    requires lev <= ROUTE_MAX_REC_LEV && more != []
    ensures var ret := cfg.answer(id, w.trace);
            var w' := World(w.trace + [Called(id)], ret);
            RunSeq(cfg, [Module(id)] + more, lev, w)
            == if ret == 0 then (Exited(0), w') else RunSeq(cfg, more, lev, w')
  {
    assert ([Module(id)] + more)[1..] == more;
  }

  /** Calling a block that does not exist, or nesting too deep, is an error that does not end
      the script. */
  lemma FailuresGoOn(cfg: Config, k: int, l: seq<Action>, w: World, lev: nat)
    requires lev <= ROUTE_MAX_REC_LEV
    ensures k < 0 || k >= |cfg.routes| ==> Do(cfg, Route(k), lev, w) == (Next(-6), w)
    ensures Run(cfg, l, 100, w) == (Next(-1), w)
  {
  }

  /** A return without a number gives the last return code again. */
  lemma ReturnsLast(cfg: Config, lev: nat, w: World)
    requires lev <= ROUTE_MAX_REC_LEV
    ensures Do(cfg, Drop(RetCode, ReturnFlag), lev, w) == (Returned(w.rc), w)
    ensures Do(cfg, Drop(RetCode, ExitFlag), lev, w) == (Exited(w.rc), w)
  {
  }

  /** A script begins with the last return code 0, and the handlers for the end run behind it
      exactly if its result is 0. */
  lemma WholeScript(cfg: Config, l: seq<Action>, trace: seq<Event>)
    ensures Meaning(cfg, [], trace) == (1, World(trace, 0))
    ensures var (ret, w) := Meaning(cfg, l, trace);
            var (o, v) := Run(cfg, l, 0, World(trace, 0));
            ret == o.ret && w.rc == v.rc && w.trace == if ret == 0 then v.trace + [OnBreak] else v.trace
  {
  }
}
