/** Routing scripts: what a script means, what the interpreter's flags, counter
    and longjmp compute, and when the two are the same. */
module Script {

  const ROUTE_MAX_REC_LEV := 100
  const E_UNSPEC := -1
  const E_BUG := -5
  const E_CFG := -6

  datatype Code = Number(n: int) | RetCode

  /** The flag operand of a DROP_T action: exit and drop carry EXIT_R_F, return and
      break carry RETURN_R_F. */
  datatype Flag = ExitFlag | ReturnFlag

  datatype Compare = Eq | Ne | Gt | Lt | Ge | Le | BadCompare

  /** Action lists are the `next` chains; the empty list is the null pointer. */
  datatype Action =
    | Drop(code: Code, flag: Flag)
    | Route(number: int)
    | If(cond: Expr, then_: seq<Action>, else_: seq<Action>)
    | IfNull                              // an if without an expression
    | Module(id: nat)
    | BadModule

  datatype Expr =
    | And(l: Expr, r: Expr)
    | Or(l: Expr, r: Expr)
    | Not(e: Expr)
    | Num(n: int)
    | LastCode(op: Compare, right: int)
    | Act(list: seq<Action>)
    | Test(id: nat)                       // any operand that only looks at the message
    | BadExpr

  datatype Event = Called(id: nat) | OnBreak

  /** The configuration: route blocks, and what modules and tests answer given
      everything that has happened so far. */
  datatype Config = Config(routes: seq<seq<Action>>, answer: (nat, seq<Event>) -> int, test: (nat, seq<Event>) -> int)

  function CompNum(op: Compare, left: int, right: int): int {
    match op
    case Eq => if left == right then 1 else 0
    case Ne => if left != right then 1 else 0
    case Gt => if left > right then 1 else 0
    case Lt => if left < right then 1 else 0
    case Ge => if left >= right then 1 else 0
    case Le => if left <= right then 1 else 0
    case BadCompare => E_BUG
  }

  // ----- Structured semantics

  datatype World = World(trace: seq<Event>, rc: int)

  /** How a list or action ends. */
  datatype Out = Next(ret: int) | Returned(ret: int) | Exited(ret: int)

  /** How a condition ends. */
  datatype Val = V(v: int) | VExited(ret: int)

  function CodeValue(c: Code, rc: int): int {
    match c
    case Number(n) => n
    case RetCode => rc
  }

  /** Run a block called at nesting level `lev`. */
  function Run(cfg: Config, l: seq<Action>, lev: nat, w: World): (Out, World)
    requires lev <= ROUTE_MAX_REC_LEV
    decreases ROUTE_MAX_REC_LEV + 1 - lev, 0
  {
    if lev == ROUTE_MAX_REC_LEV then (Next(E_UNSPEC), w)
    else if l == [] then (Next(1), w)
    else RunSeq(cfg, l, lev + 1, w)
  }

  function RunSeq(cfg: Config, l: seq<Action>, lev: nat, w: World): (Out, World)
    requires l != [] && lev <= ROUTE_MAX_REC_LEV
    decreases ROUTE_MAX_REC_LEV + 1 - lev, 1, l
  {
    var (o, w') := Do(cfg, l[0], lev, w);
    if !o.Next? || |l| == 1 then (o, w') else RunSeq(cfg, l[1..], lev, w')
  }

  function Do(cfg: Config, a: Action, lev: nat, w: World): (Out, World)
    requires lev <= ROUTE_MAX_REC_LEV
    decreases ROUTE_MAX_REC_LEV + 1 - lev, 1, a
  {
    match a
    case Drop(code, ExitFlag) => (Exited(CodeValue(code, w.rc)), w.(rc := CodeValue(code, w.rc)))
    case Drop(code, ReturnFlag) => (Returned(CodeValue(code, w.rc)), w)
    case Route(n) =>
      if n < 0 || n >= |cfg.routes| then (Next(E_CFG), w)
      else
        var (o, w') := Run(cfg, cfg.routes[n], lev, w);
        if o.Exited? then (o, w') else (Next(o.ret), w'.(rc := o.ret))
    case If(c, t, e) =>
      var (v, w') := Eval(cfg, c, lev, w);
      if v.VExited? then (Exited(v.ret), w')
      else
        var block := if v.v > 0 then t else e;
        if block == [] then (Next(1), w') else Run(cfg, block, lev, w')
    case IfNull => (Next(E_BUG), w)
    case Module(id) =>
      var ret := cfg.answer(id, w.trace);
      (if ret == 0 then Exited(0) else Next(ret), World(w.trace + [Called(id)], ret))
    case BadModule => (Next(E_BUG), w)
  }

  function Eval(cfg: Config, e: Expr, lev: nat, w: World): (Val, World)
    requires lev <= ROUTE_MAX_REC_LEV
    decreases ROUTE_MAX_REC_LEV + 1 - lev, 1, e
  {
    match e
    case And(l, r) =>
      var (v, w') := Eval(cfg, l, lev, w);
      if v.VExited? || v.v != 1 then (v, w') else Eval(cfg, r, lev, w')
    case Or(l, r) =>
      var (v, w') := Eval(cfg, l, lev, w);
      if v.VExited? || v.v != 0 then (v, w') else Eval(cfg, r, lev, w')
    case Not(x) =>
      var (v, w') := Eval(cfg, x, lev, w);
      if v.VExited? || v.v < 0 then (v, w') else (V(if v.v == 0 then 1 else 0), w')
    case Num(n) => (V(if n != 0 then 1 else 0), w)
    case LastCode(op, right) => (V(CompNum(op, w.rc, right)), w)
    case Act(list) =>
      var (o, w') := Run(cfg, list, lev, w);
      if o.Exited? then (VExited(o.ret), w') else (V(if o.ret <= 0 then 0 else 1), w')
    case Test(id) => (V(cfg.test(id, w.trace)), w)
    case BadExpr => (V(-1), w)
  }

  /** A whole script: its result, and everything that happened; on result 0 the
      modules' onbreak handlers run. */
  function Meaning(cfg: Config, l: seq<Action>, trace: seq<Event>): (r: (int, World))
  {
    var (o, w) := Run(cfg, l, 0, World(trace, 0));
    (o.ret, if o.ret == 0 then w.(trace := w.trace + [OnBreak]) else w)
  }

  // ----- The interpreter's bookkeeping, as a function

  /** The globals that survive a call: effects, last_retcode, and the RETURN_R_F
      bit of run_flags. */
  datatype Globals = Globals(trace: seq<Event>, rc: int, pending: bool)

  /** A call comes back, or control jumps to the outermost frame. */
  datatype Back = Ret(ret: int) | Jump(ret: int)

  function MRun(cfg: Config, l: seq<Action>, lev: nat, g: Globals): (Back, Globals)
    requires lev <= ROUTE_MAX_REC_LEV
    decreases ROUTE_MAX_REC_LEV + 1 - lev, 0
  {
    if lev == ROUTE_MAX_REC_LEV then (Ret(E_UNSPEC), g)
    else if l == [] then (Ret(1), g)
    else MSeq(cfg, l, lev + 1, g)
  }

  /** After every action the pending bit is looked at, whoever set it. */
  function MSeq(cfg: Config, l: seq<Action>, lev: nat, g: Globals): (Back, Globals)
    requires l != [] && lev <= ROUTE_MAX_REC_LEV
    decreases ROUTE_MAX_REC_LEV + 1 - lev, 1, l
  {
    var (b, g') := MDo(cfg, l[0], lev, g);
    if b.Jump? || g'.pending || |l| == 1 then (b, g') else MSeq(cfg, l[1..], lev, g')
  }

  function MDo(cfg: Config, a: Action, lev: nat, g: Globals): (Back, Globals)
    requires lev <= ROUTE_MAX_REC_LEV
    decreases ROUTE_MAX_REC_LEV + 1 - lev, 1, a
  {
    match a
    case Drop(code, ExitFlag) => (Jump(CodeValue(code, g.rc)), g.(rc := CodeValue(code, g.rc)))
    case Drop(code, ReturnFlag) => (Ret(CodeValue(code, g.rc)), g.(pending := true))
    case Route(n) =>
      if n < 0 || n >= |cfg.routes| then (Ret(E_CFG), g)
      else
        var (b, g') := MRun(cfg, cfg.routes[n], lev, g);
        if b.Jump? then (b, g') else (b, g'.(rc := b.ret, pending := false))
    case If(c, t, e) =>
      var (b, g') := MEval(cfg, c, lev, g);
      if b.Jump? then (b, g')
      else
        var block := if b.ret > 0 then t else e;
        if block == [] then (Ret(1), g'.(pending := false)) else MRun(cfg, block, lev, g'.(pending := false))
    case IfNull => (Ret(E_BUG), g)
    case Module(id) =>
      var ret := cfg.answer(id, g.trace);
      (if ret == 0 then Jump(0) else Ret(ret), Globals(g.trace + [Called(id)], ret, g.pending))
    case BadModule => (Ret(E_BUG), g)
  }

  function MEval(cfg: Config, e: Expr, lev: nat, g: Globals): (Back, Globals)
    requires lev <= ROUTE_MAX_REC_LEV
    decreases ROUTE_MAX_REC_LEV + 1 - lev, 1, e
  {
    match e
    case And(l, r) =>
      var (b, g') := MEval(cfg, l, lev, g);
      if b.Jump? || b.ret != 1 then (b, g') else MEval(cfg, r, lev, g')
    case Or(l, r) =>
      var (b, g') := MEval(cfg, l, lev, g);
      if b.Jump? || b.ret != 0 then (b, g') else MEval(cfg, r, lev, g')
    case Not(x) =>
      var (b, g') := MEval(cfg, x, lev, g);
      if b.Jump? || b.ret < 0 then (b, g') else (Ret(if b.ret == 0 then 1 else 0), g')
    case Num(n) => (Ret(if n != 0 then 1 else 0), g)
    case LastCode(op, right) => (Ret(CompNum(op, g.rc, right)), g)
    case Act(list) =>
      var (b, g') := MRun(cfg, list, lev, g);
      if b.Jump? then (b, g') else (Ret(if b.ret <= 0 then 0 else 1), g')
    case Test(id) => (Ret(cfg.test(id, g.trace)), g)
    case BadExpr => (Ret(-1), g)
  }

  function MMeaning(cfg: Config, l: seq<Action>, trace: seq<Event>): (int, World) {
    var (b, g) := MRun(cfg, l, 0, Globals(trace, 0, false));
    (b.ret, World(if b.ret == 0 then g.trace + [OnBreak] else g.trace, g.rc))
  }

  // ----- What is performed, and which lists are cut short

  /** What was performed: for a list one part for each of its actions that was begun, for
      an action or a condition one part for each list or condition inside it. */
  datatype Deed = Nothing | Deed(parts: seq<Deed>)

  function RunDeed(cfg: Config, l: seq<Action>, lev: nat, w: World): Deed
    requires lev <= ROUTE_MAX_REC_LEV
    decreases ROUTE_MAX_REC_LEV + 1 - lev, 0
  {
    if lev == ROUTE_MAX_REC_LEV || l == [] then Nothing else Deed(SeqDeeds(cfg, l, lev + 1, w))
  }

  function SeqDeeds(cfg: Config, l: seq<Action>, lev: nat, w: World): seq<Deed>
    requires l != [] && lev <= ROUTE_MAX_REC_LEV
    decreases ROUTE_MAX_REC_LEV + 1 - lev, 1, l
  {
    var (o, w') := Do(cfg, l[0], lev, w);
    [DoDeed(cfg, l[0], lev, w)] + (if !o.Next? || |l| == 1 then [] else SeqDeeds(cfg, l[1..], lev, w'))
  }

  function DoDeed(cfg: Config, a: Action, lev: nat, w: World): Deed
    requires lev <= ROUTE_MAX_REC_LEV
    decreases ROUTE_MAX_REC_LEV + 1 - lev, 1, a
  {
    match a
    case Route(n) => if n < 0 || n >= |cfg.routes| then Nothing else RunDeed(cfg, cfg.routes[n], lev, w)
    case If(c, t, e) =>
      var (v, w') := Eval(cfg, c, lev, w);
      var cond := EvalDeed(cfg, c, lev, w);
      if v.VExited? then Deed([cond]) else Deed([cond, RunDeed(cfg, if v.v > 0 then t else e, lev, w')])
    case _ => Nothing
  }

  function EvalDeed(cfg: Config, e: Expr, lev: nat, w: World): Deed
    requires lev <= ROUTE_MAX_REC_LEV
    decreases ROUTE_MAX_REC_LEV + 1 - lev, 1, e
  {
    match e
    case And(l, r) =>
      var (v, w') := Eval(cfg, l, lev, w);
      if v.VExited? || v.v != 1 then Deed([EvalDeed(cfg, l, lev, w)])
      else Deed([EvalDeed(cfg, l, lev, w), EvalDeed(cfg, r, lev, w')])
    case Or(l, r) =>
      var (v, w') := Eval(cfg, l, lev, w);
      if v.VExited? || v.v != 0 then Deed([EvalDeed(cfg, l, lev, w)])
      else Deed([EvalDeed(cfg, l, lev, w), EvalDeed(cfg, r, lev, w')])
    case Not(x) => EvalDeed(cfg, x, lev, w)
    case Act(list) => RunDeed(cfg, list, lev, w)
    case _ => Nothing
  }

  /** The same for the interpreter. */
  function MRunDeed(cfg: Config, l: seq<Action>, lev: nat, g: Globals): Deed
    requires lev <= ROUTE_MAX_REC_LEV
    decreases ROUTE_MAX_REC_LEV + 1 - lev, 0
  {
    if lev == ROUTE_MAX_REC_LEV || l == [] then Nothing else Deed(MSeqDeeds(cfg, l, lev + 1, g))
  }

  function MSeqDeeds(cfg: Config, l: seq<Action>, lev: nat, g: Globals): seq<Deed>
    requires l != [] && lev <= ROUTE_MAX_REC_LEV
    decreases ROUTE_MAX_REC_LEV + 1 - lev, 1, l
  {
    var (b, g') := MDo(cfg, l[0], lev, g);
    [MDoDeed(cfg, l[0], lev, g)] + (if b.Jump? || g'.pending || |l| == 1 then [] else MSeqDeeds(cfg, l[1..], lev, g'))
  }

  function MDoDeed(cfg: Config, a: Action, lev: nat, g: Globals): Deed
    requires lev <= ROUTE_MAX_REC_LEV
    decreases ROUTE_MAX_REC_LEV + 1 - lev, 1, a
  {
    match a
    case Route(n) => if n < 0 || n >= |cfg.routes| then Nothing else MRunDeed(cfg, cfg.routes[n], lev, g)
    case If(c, t, e) =>
      var (b, g') := MEval(cfg, c, lev, g);
      var cond := MEvalDeed(cfg, c, lev, g);
      if b.Jump? then Deed([cond])
      else Deed([cond, MRunDeed(cfg, if b.ret > 0 then t else e, lev, g'.(pending := false))])
    case _ => Nothing
  }

  function MEvalDeed(cfg: Config, e: Expr, lev: nat, g: Globals): Deed
    requires lev <= ROUTE_MAX_REC_LEV
    decreases ROUTE_MAX_REC_LEV + 1 - lev, 1, e
  {
    match e
    case And(l, r) =>
      var (b, g') := MEval(cfg, l, lev, g);
      if b.Jump? || b.ret != 1 then Deed([MEvalDeed(cfg, l, lev, g)])
      else Deed([MEvalDeed(cfg, l, lev, g), MEvalDeed(cfg, r, lev, g')])
    case Or(l, r) =>
      var (b, g') := MEval(cfg, l, lev, g);
      if b.Jump? || b.ret != 0 then Deed([MEvalDeed(cfg, l, lev, g)])
      else Deed([MEvalDeed(cfg, l, lev, g), MEvalDeed(cfg, r, lev, g')])
    case Not(x) => MEvalDeed(cfg, x, lev, g)
    case Act(list) => MRunDeed(cfg, list, lev, g)
    case _ => Nothing
  }

  /** The action leaves no return pending but one of its own. */
  predicate Clears(cfg: Config, a: Action) {
    a.If? || (a.Route? && 0 <= a.number < |cfg.routes|)
  }

  /** Somewhere in the run a list is cut short: it is entered with a return pending, and its
      first action, which is not its last, does not jump, does not return and does not clear. */
  predicate CutRun(cfg: Config, l: seq<Action>, lev: nat, g: Globals)
    requires lev <= ROUTE_MAX_REC_LEV
    decreases ROUTE_MAX_REC_LEV + 1 - lev, 0
  {
    lev < ROUTE_MAX_REC_LEV && l != [] && CutSeq(cfg, l, lev + 1, g)
  }

  predicate CutSeq(cfg: Config, l: seq<Action>, lev: nat, g: Globals)
    requires l != [] && lev <= ROUTE_MAX_REC_LEV
    decreases ROUTE_MAX_REC_LEV + 1 - lev, 1, l
  {
    var (b, g') := MDo(cfg, l[0], lev, g);
    CutDo(cfg, l[0], lev, g)
    || (b.Ret? && |l| > 1
        && if g'.pending then g.pending && !l[0].Drop? && !Clears(cfg, l[0]) else CutSeq(cfg, l[1..], lev, g'))
  }

  predicate CutDo(cfg: Config, a: Action, lev: nat, g: Globals)
    requires lev <= ROUTE_MAX_REC_LEV
    decreases ROUTE_MAX_REC_LEV + 1 - lev, 1, a
  {
    match a
    case Route(n) => 0 <= n < |cfg.routes| && CutRun(cfg, cfg.routes[n], lev, g)
    case If(c, t, e) =>
      var (b, g') := MEval(cfg, c, lev, g);
      CutEval(cfg, c, lev, g) || (b.Ret? && CutRun(cfg, if b.ret > 0 then t else e, lev, g'.(pending := false)))
    case _ => false
  }

  predicate CutEval(cfg: Config, e: Expr, lev: nat, g: Globals)
    requires lev <= ROUTE_MAX_REC_LEV
    decreases ROUTE_MAX_REC_LEV + 1 - lev, 1, e
  {
    match e
    case And(l, r) =>
      var (b, g') := MEval(cfg, l, lev, g);
      CutEval(cfg, l, lev, g) || (b == Ret(1) && CutEval(cfg, r, lev, g'))
    case Or(l, r) =>
      var (b, g') := MEval(cfg, l, lev, g);
      CutEval(cfg, l, lev, g) || (b == Ret(0) && CutEval(cfg, r, lev, g'))
    case Not(x) => CutEval(cfg, x, lev, g)
    case Act(list) => CutRun(cfg, list, lev, g)
    case _ => false
  }

  // ----- Conditions in which a return cannot leak into a second block

  /** Some path through the list ends it with return. */
  predicate MayReturn(l: seq<Action>)
    decreases l
  {
    exists i :: 0 <= i < |l| && ActionMayReturn(l[i])
  }

  predicate ActionMayReturn(a: Action)
    decreases a
  {
    match a
    case Drop(_, ReturnFlag) => true
    case If(_, t, e) => MayReturn(t) || MayReturn(e)
    case _ => false
  }

  predicate ExprMayReturn(e: Expr) {
    match e
    case And(l, r) => ExprMayReturn(l) || ExprMayReturn(r)
    case Or(l, r) => ExprMayReturn(l) || ExprMayReturn(r)
    case Not(x) => ExprMayReturn(x)
    case Act(list) => MayReturn(list)
    case _ => false
  }

  /** The list cannot tell that a return is pending when it is run at this level: no action
      stops because of it that would not have stopped anyway. */
  predicate Deaf(cfg: Config, l: seq<Action>, lev: nat)
    requires lev <= ROUTE_MAX_REC_LEV
    decreases ROUTE_MAX_REC_LEV + 1 - lev, 0
  {
    lev == ROUTE_MAX_REC_LEV || l == []
    || (DeafAction(cfg, l[0], lev + 1) && (|l| == 1 || l[0].Drop? || Clears(cfg, l[0])))
  }

  predicate DeafAction(cfg: Config, a: Action, lev: nat)
    requires lev <= ROUTE_MAX_REC_LEV
    decreases ROUTE_MAX_REC_LEV + 1 - lev, 1, a
  {
    match a
    case Route(n) => 0 <= n < |cfg.routes| ==> Deaf(cfg, cfg.routes[n], lev)
    case If(c, _, _) => DeafExpr(cfg, c, lev)
    case _ => true
  }

  predicate DeafExpr(cfg: Config, e: Expr, lev: nat)
    requires lev <= ROUTE_MAX_REC_LEV
    decreases ROUTE_MAX_REC_LEV + 1 - lev, 1, e
  {
    match e
    case And(l, r) => DeafExpr(cfg, l, lev) && DeafExpr(cfg, r, lev)
    case Or(l, r) => DeafExpr(cfg, l, lev) && DeafExpr(cfg, r, lev)
    case Not(x) => DeafExpr(cfg, x, lev)
    case Act(list) => Deaf(cfg, list, lev)
    case _ => true
  }

  /** A condition evaluates nothing that could tell behind a block that may have returned. */
  predicate SafeExpr(cfg: Config, e: Expr)
    decreases e
  {
    match e
    case And(l, r) => SafeExpr(cfg, l) && SafeExpr(cfg, r) && (ExprMayReturn(l) ==> DeafExpr(cfg, r, 0))
    case Or(l, r) => SafeExpr(cfg, l) && SafeExpr(cfg, r) && (ExprMayReturn(l) ==> DeafExpr(cfg, r, 0))
    case Not(x) => SafeExpr(cfg, x)
    case Act(list) => Safe(cfg, list)
    case _ => true
  }

  predicate SafeAction(cfg: Config, a: Action)
    decreases a
  {
    match a
    case If(c, t, e) => SafeExpr(cfg, c) && Safe(cfg, t) && Safe(cfg, e)
    case _ => true
  }

  predicate Safe(cfg: Config, l: seq<Action>)
    decreases l
  {
    forall i :: 0 <= i < |l| ==> SafeAction(cfg, l[i])
  }

  predicate SafeConfig(cfg: Config) {
    forall i :: 0 <= i < |cfg.routes| ==> Safe(cfg, cfg.routes[i])
  }

  /** What cannot tell at a low level cannot tell at a higher one. */
  lemma {:induction false} DeafHigher(cfg: Config, l: seq<Action>, lev: nat, up: nat)
    requires lev <= up <= ROUTE_MAX_REC_LEV && Deaf(cfg, l, lev)
    ensures Deaf(cfg, l, up)
    decreases ROUTE_MAX_REC_LEV + 1 - lev, 0
  {
    if up < ROUTE_MAX_REC_LEV && l != [] { DeafActionHigher(cfg, l[0], lev + 1, up + 1); }
  }

  lemma {:induction false} DeafActionHigher(cfg: Config, a: Action, lev: nat, up: nat)
    requires lev <= up <= ROUTE_MAX_REC_LEV && DeafAction(cfg, a, lev)
    ensures DeafAction(cfg, a, up)
    decreases ROUTE_MAX_REC_LEV + 1 - lev, 1, a
  {
    match a
    case Route(n) => if 0 <= n < |cfg.routes| { DeafHigher(cfg, cfg.routes[n], lev, up); }
    case If(c, _, _) => DeafExprHigher(cfg, c, lev, up);
    case _ =>
  }

  lemma {:induction false} DeafExprHigher(cfg: Config, e: Expr, lev: nat, up: nat)
    requires lev <= up <= ROUTE_MAX_REC_LEV && DeafExpr(cfg, e, lev)
    ensures DeafExpr(cfg, e, up)
    decreases ROUTE_MAX_REC_LEV + 1 - lev, 1, e
  {
    match e
    case And(l, r) =>
      DeafExprHigher(cfg, l, lev, up);
      DeafExprHigher(cfg, r, lev, up);
    case Or(l, r) =>
      DeafExprHigher(cfg, l, lev, up);
      DeafExprHigher(cfg, r, lev, up);
    case Not(x) => DeafExprHigher(cfg, x, lev, up);
    case Act(list) => DeafHigher(cfg, list, lev, up);
    case _ =>
  }

  // ----- Refinement

  /** The bookkeeping result stands for the structured one; a return that was pending before
      may still be pending after it if `stale`. */
  ghost predicate Follows(m: (Back, Globals), s: (Out, World), stale: bool) {
    m.1.trace == s.1.trace && m.1.rc == s.1.rc
    && match s.0
       case Next(ret) => m.0 == Ret(ret) && (m.1.pending ==> stale)
       case Returned(ret) => m.0 == Ret(ret) && m.1.pending
       case Exited(ret) => m.0 == Jump(ret)
  }

  /** A list that may not return does not. */
  lemma {:induction false} RunDoesNotReturn(cfg: Config, l: seq<Action>, lev: nat, w: World)
    requires lev <= ROUTE_MAX_REC_LEV && !MayReturn(l)
    ensures !Run(cfg, l, lev, w).0.Returned?
    decreases ROUTE_MAX_REC_LEV + 1 - lev, 0
  {
    if lev < ROUTE_MAX_REC_LEV && l != [] { RunSeqDoesNotReturn(cfg, l, lev + 1, w); }
  }

  lemma {:induction false} RunSeqDoesNotReturn(cfg: Config, l: seq<Action>, lev: nat, w: World)
    requires l != [] && lev <= ROUTE_MAX_REC_LEV && !MayReturn(l)
    ensures !RunSeq(cfg, l, lev, w).0.Returned?
    decreases ROUTE_MAX_REC_LEV + 1 - lev, 1, l
  {
    assert !ActionMayReturn(l[0]);
    DoDoesNotReturn(cfg, l[0], lev, w);
    if |l| > 1 {
      assert forall i :: 0 <= i < |l| - 1 ==> l[1..][i] == l[i + 1];
      RunSeqDoesNotReturn(cfg, l[1..], lev, Do(cfg, l[0], lev, w).1);
    }
  }

  lemma {:induction false} DoDoesNotReturn(cfg: Config, a: Action, lev: nat, w: World)
    requires lev <= ROUTE_MAX_REC_LEV && !ActionMayReturn(a)
    ensures !Do(cfg, a, lev, w).0.Returned?
    decreases ROUTE_MAX_REC_LEV + 1 - lev, 1, a
  {
    if a.If? {
      var (v, w') := Eval(cfg, a.cond, lev, w);
      if v.V? { RunDoesNotReturn(cfg, if v.v > 0 then a.then_ else a.else_, lev, w'); }
    }
  }

  /** The same for a condition. */
  ghost predicate Agrees(m: (Back, Globals), s: (Val, World), stale: bool) {
    m.1.trace == s.1.trace && m.1.rc == s.1.rc
    && match s.0
       case VExited(ret) => m.0 == Jump(ret)
       case V(v) => m.0 == Ret(v) && (m.1.pending ==> stale)
  }

  function WorldOf(g: Globals): World { World(g.trace, g.rc) }

  /** Exactly when flags, counter and jumps do what the structured meaning says: the same
      actions are performed if and only if no list is cut short, and then everything that
      comes out is the same too. */
  lemma {:induction false} RunExact(cfg: Config, l: seq<Action>, lev: nat, g: Globals)
    requires lev <= ROUTE_MAX_REC_LEV
    ensures MRunDeed(cfg, l, lev, g) == RunDeed(cfg, l, lev, WorldOf(g)) <==> !CutRun(cfg, l, lev, g)
    ensures !CutRun(cfg, l, lev, g) ==> Follows(MRun(cfg, l, lev, g), Run(cfg, l, lev, WorldOf(g)), g.pending)
    decreases ROUTE_MAX_REC_LEV + 1 - lev, 0
  {
    if lev < ROUTE_MAX_REC_LEV && l != [] { SeqExact(cfg, l, lev + 1, g); }
  }

  lemma {:induction false} SeqExact(cfg: Config, l: seq<Action>, lev: nat, g: Globals)
    requires l != [] && lev <= ROUTE_MAX_REC_LEV
    ensures MSeqDeeds(cfg, l, lev, g) == SeqDeeds(cfg, l, lev, WorldOf(g)) <==> !CutSeq(cfg, l, lev, g)
    ensures !CutSeq(cfg, l, lev, g) ==> Follows(MSeq(cfg, l, lev, g), RunSeq(cfg, l, lev, WorldOf(g)), g.pending)
    decreases ROUTE_MAX_REC_LEV + 1 - lev, 1, l
  {
    DoExact(cfg, l[0], lev, g);
    var (b, g') := MDo(cfg, l[0], lev, g);
    var (o, w') := Do(cfg, l[0], lev, WorldOf(g));
    var m, s := MDoDeed(cfg, l[0], lev, g), DoDeed(cfg, l[0], lev, WorldOf(g));
    var mRest := if b.Jump? || g'.pending || |l| == 1 then [] else MSeqDeeds(cfg, l[1..], lev, g');
    var sRest := if !o.Next? || |l| == 1 then [] else SeqDeeds(cfg, l[1..], lev, w');
    SameParts(m, mRest, s, sRest);
    if !CutDo(cfg, l[0], lev, g) && |l| > 1 && b.Ret? {
      if !g'.pending {
        assert o.Next? && w' == WorldOf(g');
        SeqExact(cfg, l[1..], lev, g');
      } else {
        SeqStops(cfg, l, lev, g);
      }
    }
  }

  /** A list that stops with a return pending: it is its own, unless the list was entered
      with it and nothing has cleared it. */
  lemma SeqStops(cfg: Config, l: seq<Action>, lev: nat, g: Globals)
    requires |l| > 1 && lev <= ROUTE_MAX_REC_LEV
    requires MDo(cfg, l[0], lev, g).0.Ret? && MDo(cfg, l[0], lev, g).1.pending
    requires Follows(MDo(cfg, l[0], lev, g), Do(cfg, l[0], lev, WorldOf(g)), g.pending && !Clears(cfg, l[0]))
    ensures Do(cfg, l[0], lev, WorldOf(g)).0.Next? <==> g.pending && !l[0].Drop? && !Clears(cfg, l[0])
  {
  }

  lemma SameParts(a: Deed, as_: seq<Deed>, b: Deed, bs: seq<Deed>)
    ensures [a] + as_ == [b] + bs <==> a == b && as_ == bs
  {
    if [a] + as_ == [b] + bs {
      assert ([a] + as_)[0] == ([b] + bs)[0] && ([a] + as_)[1..] == ([b] + bs)[1..];
    }
  }

  lemma {:induction false} DoExact(cfg: Config, a: Action, lev: nat, g: Globals)
    requires lev <= ROUTE_MAX_REC_LEV
    ensures MDoDeed(cfg, a, lev, g) == DoDeed(cfg, a, lev, WorldOf(g)) <==> !CutDo(cfg, a, lev, g)
    ensures !CutDo(cfg, a, lev, g) ==>
              Follows(MDo(cfg, a, lev, g), Do(cfg, a, lev, WorldOf(g)), g.pending && !Clears(cfg, a))
    decreases ROUTE_MAX_REC_LEV + 1 - lev, 1, a
  {
    match a
    case Route(n) =>
      if 0 <= n < |cfg.routes| { RunExact(cfg, cfg.routes[n], lev, g); }
    case If(c, t, e) =>
      EvalExact(cfg, c, lev, g);
      var (b, g') := MEval(cfg, c, lev, g);
      var (v, w') := Eval(cfg, c, lev, WorldOf(g));
      var m, s := MDoDeed(cfg, a, lev, g), DoDeed(cfg, a, lev, WorldOf(g));
      assert m.parts[0] == MEvalDeed(cfg, c, lev, g) && s.parts[0] == EvalDeed(cfg, c, lev, WorldOf(g));
      if !CutEval(cfg, c, lev, g) && b.Ret? {
        var block := if b.ret > 0 then t else e;
        RunExact(cfg, block, lev, g'.(pending := false));
        assert m.parts[1] == MRunDeed(cfg, block, lev, g'.(pending := false))
            && s.parts[1] == RunDeed(cfg, block, lev, w');
      }
    case _ =>
  }

  lemma {:induction false} EvalExact(cfg: Config, e: Expr, lev: nat, g: Globals)
    requires lev <= ROUTE_MAX_REC_LEV
    ensures MEvalDeed(cfg, e, lev, g) == EvalDeed(cfg, e, lev, WorldOf(g)) <==> !CutEval(cfg, e, lev, g)
    ensures !CutEval(cfg, e, lev, g) ==> Agrees(MEval(cfg, e, lev, g), Eval(cfg, e, lev, WorldOf(g)), true)
    decreases ROUTE_MAX_REC_LEV + 1 - lev, 1, e
  {
    match e
    case And(l, r) =>
      EvalExact(cfg, l, lev, g);
      if !CutEval(cfg, l, lev, g) { EvalExact(cfg, r, lev, MEval(cfg, l, lev, g).1); }
      OperandDeeds(cfg, e, l, r, lev, g);
    case Or(l, r) =>
      EvalExact(cfg, l, lev, g);
      if !CutEval(cfg, l, lev, g) { EvalExact(cfg, r, lev, MEval(cfg, l, lev, g).1); }
      OperandDeeds(cfg, e, l, r, lev, g);
    case Not(x) => EvalExact(cfg, x, lev, g);
    case Act(list) => RunExact(cfg, list, lev, g);
    case _ =>
  }

  /** What is performed for && and ||: the first operand, and behind a value that goes on the second. */
  lemma OperandDeeds(cfg: Config, e: Expr, l: Expr, r: Expr, lev: nat, g: Globals)
    requires (e.And? && e.l == l && e.r == r) || (e.Or? && e.l == l && e.r == r)
    requires lev <= ROUTE_MAX_REC_LEV
    ensures var go := if e.And? then 1 else 0;
            var (b, g') := MEval(cfg, l, lev, g);
            var (v, w') := Eval(cfg, l, lev, WorldOf(g));
            var m, s := MEvalDeed(cfg, e, lev, g), EvalDeed(cfg, e, lev, WorldOf(g));
            m.Deed? && s.Deed?
            && m.parts == [MEvalDeed(cfg, l, lev, g)] + (if b == Ret(go) then [MEvalDeed(cfg, r, lev, g')] else [])
            && s.parts == [EvalDeed(cfg, l, lev, WorldOf(g))] + (if v == V(go) then [EvalDeed(cfg, r, lev, w')] else [])
            && |m.parts| > 0 && |s.parts| > 0 && m.parts[0] == MEvalDeed(cfg, l, lev, g)
            && s.parts[0] == EvalDeed(cfg, l, lev, WorldOf(g))
            && (b == Ret(go) ==> |m.parts| == 2 && m.parts[1] == MEvalDeed(cfg, r, lev, g'))
            && (v == V(go) ==> |s.parts| == 2 && s.parts[1] == EvalDeed(cfg, r, lev, w'))
  {
  }

  /** Main theorem, for every script in every configuration: the interpreter performs the
      actions of the structured meaning if and only if no list is cut short, and then it
      has the same result, the same effects and the same last return code. */
  lemma ScriptExact(cfg: Config, l: seq<Action>, trace: seq<Event>)
    ensures var g := Globals(trace, 0, false);
            (MRunDeed(cfg, l, 0, g) == RunDeed(cfg, l, 0, World(trace, 0)) <==> !CutRun(cfg, l, 0, g))
            && (!CutRun(cfg, l, 0, g) ==> MMeaning(cfg, l, trace) == Meaning(cfg, l, trace))
  {
    RunExact(cfg, l, 0, Globals(trace, 0, false));
  }

  // ----- Where nothing can be cut short

  /** A safe list is cut short nowhere, unless it is run with a return pending that it can tell. */
  lemma {:induction false} SafeNotCut(cfg: Config, l: seq<Action>, lev: nat, g: Globals)
    requires lev <= ROUTE_MAX_REC_LEV && SafeConfig(cfg) && Safe(cfg, l) && (g.pending ==> Deaf(cfg, l, lev))
    ensures !CutRun(cfg, l, lev, g)
    decreases ROUTE_MAX_REC_LEV + 1 - lev, 0
  {
    if lev < ROUTE_MAX_REC_LEV && l != [] { SafeSeqNotCut(cfg, l, lev + 1, g); }
  }

  lemma {:induction false} SafeSeqNotCut(cfg: Config, l: seq<Action>, lev: nat, g: Globals)
    requires l != [] && lev <= ROUTE_MAX_REC_LEV && SafeConfig(cfg) && Safe(cfg, l)
    requires g.pending ==> DeafAction(cfg, l[0], lev) && (|l| == 1 || l[0].Drop? || Clears(cfg, l[0]))
    ensures !CutSeq(cfg, l, lev, g)
    decreases ROUTE_MAX_REC_LEV + 1 - lev, 1, l
  {
    SafeDoNotCut(cfg, l[0], lev, g);
    var (b, g') := MDo(cfg, l[0], lev, g);
    if b.Ret? && |l| > 1 && !g'.pending {
      assert forall i :: 0 <= i < |l| - 1 ==> l[1..][i] == l[i + 1];
      SafeSeqNotCut(cfg, l[1..], lev, g');
    }
  }

  lemma {:induction false} SafeDoNotCut(cfg: Config, a: Action, lev: nat, g: Globals)
    requires lev <= ROUTE_MAX_REC_LEV && SafeConfig(cfg) && SafeAction(cfg, a)
             && (g.pending ==> DeafAction(cfg, a, lev))
    ensures !CutDo(cfg, a, lev, g)
    decreases ROUTE_MAX_REC_LEV + 1 - lev, 1, a
  {
    match a
    case Route(n) =>
      if 0 <= n < |cfg.routes| { SafeNotCut(cfg, cfg.routes[n], lev, g); }
    case If(c, t, e) =>
      SafeEvalNotCut(cfg, c, lev, g);
      var (b, g') := MEval(cfg, c, lev, g);
      if b.Ret? { SafeNotCut(cfg, if b.ret > 0 then t else e, lev, g'.(pending := false)); }
    case _ =>
  }

  lemma {:induction false} SafeEvalNotCut(cfg: Config, e: Expr, lev: nat, g: Globals)
    requires lev <= ROUTE_MAX_REC_LEV && SafeConfig(cfg) && SafeExpr(cfg, e) && (g.pending ==> DeafExpr(cfg, e, lev))
    ensures !CutEval(cfg, e, lev, g)
    ensures MEval(cfg, e, lev, g).0.Ret? && MEval(cfg, e, lev, g).1.pending ==> g.pending || ExprMayReturn(e)
    decreases ROUTE_MAX_REC_LEV + 1 - lev, 1, e
  {
    match e
    case And(l, r) =>
      SafeEvalNotCut(cfg, l, lev, g);
      if ExprMayReturn(l) { DeafExprHigher(cfg, r, 0, lev); }
      if MEval(cfg, l, lev, g).0.Ret? { SafeEvalNotCut(cfg, r, lev, MEval(cfg, l, lev, g).1); }
    case Or(l, r) =>
      SafeEvalNotCut(cfg, l, lev, g);
      if ExprMayReturn(l) { DeafExprHigher(cfg, r, 0, lev); }
      if MEval(cfg, l, lev, g).0.Ret? { SafeEvalNotCut(cfg, r, lev, MEval(cfg, l, lev, g).1); }
    case Not(x) => SafeEvalNotCut(cfg, x, lev, g);
    case Act(list) =>
      SafeNotCut(cfg, list, lev, g);
      RunExact(cfg, list, lev, g);
      if !MayReturn(list) { RunDoesNotReturn(cfg, list, lev, WorldOf(g)); }
    case _ =>
  }

  /** So a script in which no condition evaluates a block that could tell behind one that may
      have returned has its structured meaning, whatever the functions called answer. */
  lemma ScriptRefines(cfg: Config, l: seq<Action>, trace: seq<Event>)
    requires SafeConfig(cfg) && Safe(cfg, l)
    ensures !CutRun(cfg, l, 0, Globals(trace, 0, false)) && MMeaning(cfg, l, trace) == Meaning(cfg, l, trace)
  {
    SafeNotCut(cfg, l, 0, Globals(trace, 0, false));
    ScriptExact(cfg, l, trace);
  }

  // ----- A return that leaks

  /** A condition of two blocks: && if `conj`, otherwise ||. */
  function Both(conj: bool, first: seq<Action>, second: seq<Action>): Expr {
    if conj then And(Act(first), Act(second)) else Or(Act(first), Act(second))
  }

  /** The script that is nothing but this condition. */
  function Leaky(conj: bool, first: seq<Action>, second: seq<Action>): seq<Action> {
    [If(Both(conj, first, second), [], [])]
  }

  /** The second block is evaluated with the return of the first one pending. */
  predicate Leaks(conj: bool, o: Out) {
    o.Returned? && (o.ret > 0 <==> conj)
  }

  /** Running on would have changed nothing: no effect, no other return code, and no exit
      but with the result the condition has anyway. */
  predicate Idle(r: (Out, World), w: World) {
    r.1 == w && (r.0.Exited? ==> r.0.ret == 1)
  }

  /** The first block is evaluated alike by both; what is pending behind it. */
  lemma FirstBlock(cfg: Config, first: seq<Action>, w: World)
    requires SafeConfig(cfg) && Safe(cfg, first)
    ensures var (o, w') := Run(cfg, first, 1, w);
            var m := MRun(cfg, first, 1, Globals(w.trace, w.rc, false));
            m.1.trace == w'.trace && m.1.rc == w'.rc
            && (if o.Exited? then m.0 == Jump(o.ret) else m.0 == Ret(o.ret) && m.1.pending == o.Returned?)
  {
    SafeNotCut(cfg, first, 1, Globals(w.trace, w.rc, false));
    RunExact(cfg, first, 1, Globals(w.trace, w.rc, false));
  }

  /** A block that begins with a call and is run with a return pending ends there. */
  lemma CutShort(cfg: Config, id: nat, rest: seq<Action>, g: Globals)
    requires g.pending
    ensures MRun(cfg, [Module(id)] + rest, 1, g)
         == (if cfg.answer(id, g.trace) == 0 then Jump(0) else Ret(cfg.answer(id, g.trace)),
             Globals(g.trace + [Called(id)], cfg.answer(id, g.trace), true))
  {
    var l := [Module(id)] + rest;
    assert l[0] == Module(id) && MRun(cfg, l, 1, g) == MSeq(cfg, l, 2, g);
    assert MDo(cfg, l[0], 2, g).1.pending;
  }

  lemma NotCutShort(cfg: Config, id: nat, rest: seq<Action>, w: World)
    ensures var w' := World(w.trace + [Called(id)], cfg.answer(id, w.trace));
            Run(cfg, [Module(id)] + rest, 1, w)
            == if cfg.answer(id, w.trace) == 0 then (Exited(0), w')
               else if rest == [] then (Next(w'.rc), w') else RunSeq(cfg, rest, 2, w')
  {
    var l := [Module(id)] + rest;
    assert l[0] == Module(id) && l[1..] == rest && Run(cfg, l, 1, w) == RunSeq(cfg, l, 2, w);
  }

  /** What the script of one condition comes to, given what its condition comes to. */
  lemma OneCondition(cfg: Config, e: Expr, trace: seq<Event>)
    ensures var (v, w) := Eval(cfg, e, 1, World(trace, 0));
            Meaning(cfg, [If(e, [], [])], trace)
            == (if v.V? then 1 else v.ret, if v.VExited? && v.ret == 0 then w.(trace := w.trace + [OnBreak]) else w)
    ensures var (b, g) := MEval(cfg, e, 1, Globals(trace, 0, false));
            MMeaning(cfg, [If(e, [], [])], trace)
            == (if b.Ret? then 1
                else b.ret, World(if b.Jump? && b.ret == 0 then g.trace + [OnBreak] else g.trace, g.rc))
  {
    var a, w, g := If(e, [], []), World(trace, 0), Globals(trace, 0, false);
    var (v, w') := Eval(cfg, e, 1, w);
    var (b, g') := MEval(cfg, e, 1, g);
    assert [a][0] == a;
    assert Do(cfg, a, 1, w) == (if v.V? then Next(1) else Exited(v.ret), w');
    assert Run(cfg, [a], 0, w) == RunSeq(cfg, [a], 1, w) == Do(cfg, a, 1, w);
    assert MDo(cfg, a, 1, g) == if b.Ret? then (Ret(1), g'.(pending := false)) else (b, g');
    assert MRun(cfg, [a], 0, g) == MSeq(cfg, [a], 1, g) == MDo(cfg, a, 1, g);
  }

  /** Exactly when a block that begins with a call may follow another block: whatever the
      first block is and whatever the functions called answer, the interpreter does what
      the structured meaning says if and only if no return of the first block is pending
      when the second one is run, or the call ends the script, or nothing follows it, or
      what follows it would have changed nothing. */
  lemma LeakIff(cfg: Config, conj: bool, first: seq<Action>, id: nat, rest: seq<Action>, trace: seq<Event>)
    requires SafeConfig(cfg) && Safe(cfg, first) && Safe(cfg, rest)
    ensures var (o, w) := Run(cfg, first, 1, World(trace, 0));
            var w' := World(w.trace + [Called(id)], cfg.answer(id, w.trace));
            var l := Leaky(conj, first, [Module(id)] + rest);
            MMeaning(cfg, l, trace) == Meaning(cfg, l, trace)
            <==> !Leaks(conj, o) || cfg.answer(id, w.trace) == 0 || rest == [] || Idle(RunSeq(cfg, rest, 2, w'), w')
  {
    var (o, w) := Run(cfg, first, 1, World(trace, 0));
    var second, e := [Module(id)] + rest, Both(conj, first, [Module(id)] + rest);
    FirstBlock(cfg, first, World(trace, 0));
    OneCondition(cfg, e, trace);
    NotCutShort(cfg, id, rest, w);
    if Leaks(conj, o) {
      CutShort(cfg, id, rest, Globals(w.trace, w.rc, true));
      if rest != [] && cfg.answer(id, w.trace) != 0 {
        LeakSeen(cfg, e, trace, RunSeq(cfg, rest, 2, World(w.trace + [Called(id)], cfg.answer(id, w.trace))),
                 World(w.trace + [Called(id)], cfg.answer(id, w.trace)));
      }
    } else if !o.Exited? && (o.ret > 0 <==> conj) {
      assert SafeAction(cfg, Module(id));
      assert Safe(cfg, second);
      SafeNotCut(cfg, second, 1, Globals(w.trace, w.rc, false));
      RunExact(cfg, second, 1, Globals(w.trace, w.rc, false));
    }
  }

  /** The two ends of a condition whose second block was cut short. */
  lemma LeakSeen(cfg: Config, e: Expr, trace: seq<Event>, r: (Out, World), w: World)
    requires Eval(cfg, e, 1, World(trace, 0))
             == (if r.0.Exited? then VExited(r.0.ret) else V(if r.0.ret <= 0 then 0 else 1), r.1)
    requires var m := MEval(cfg, e, 1, Globals(trace, 0, false)); m.0.Ret? && m.1.trace == w.trace && m.1.rc == w.rc
    ensures MMeaning(cfg, [If(e, [], [])], trace) == Meaning(cfg, [If(e, [], [])], trace) <==> Idle(r, w)
  {
    OneCondition(cfg, e, trace);
  }

  function Calls(ids: seq<nat>): (r: seq<Action>)
    ensures |r| == |ids|
  {
    if ids == [] then [] else [Module(ids[0])] + Calls(ids[1..])
  }

  /** Calls are seen: running some makes the trace longer. */
  lemma {:induction false} CallsAreSeen(cfg: Config, ids: seq<nat>, lev: nat, w: World)
    requires ids != [] && lev <= ROUTE_MAX_REC_LEV
    ensures |RunSeq(cfg, Calls(ids), lev, w).1.trace| > |w.trace|
  {
    var w' := World(w.trace + [Called(ids[0])], cfg.answer(ids[0], w.trace));
    assert Calls(ids)[0] == Module(ids[0]) && Calls(ids)[1..] == Calls(ids[1..]);
    assert Do(cfg, Calls(ids)[0], lev, w).1 == w';
    if |ids| > 1 { CallsAreSeen(cfg, ids[1..], lev, w'); }
  }

  lemma {:induction false} CallsAreSafe(cfg: Config, ids: seq<nat>)
    ensures Safe(cfg, Calls(ids))
  {
    if ids != [] {
      CallsAreSafe(cfg, ids[1..]);
      forall i | 0 <= i < |ids| ensures SafeAction(cfg, Calls(ids)[i]) {
        if i > 0 { assert Calls(ids)[i] == Calls(ids[1..])[i - 1]; }
      }
    }
  }

  /** A block of calls behind another block: interpreter and structured meaning agree exactly
      when no return of the first block is pending behind it, or there is at most one call,
      or the first call ends the script. */
  lemma LeakyIff(cfg: Config, conj: bool, first: seq<Action>, ids: seq<nat>, trace: seq<Event>)
    requires SafeConfig(cfg) && Safe(cfg, first)
    ensures var (o, w) := Run(cfg, first, 1, World(trace, 0));
            var l := Leaky(conj, first, Calls(ids));
            MMeaning(cfg, l, trace) == Meaning(cfg, l, trace)
            <==> !Leaks(conj, o) || |ids| <= 1 || cfg.answer(ids[0], w.trace) == 0
  {
    if ids == [] {
      assert Safe(cfg, []) && DeafExpr(cfg, Act([]), 0) && SafeExpr(cfg, Act([])) && SafeExpr(cfg, Act(first));
      assert SafeAction(cfg, Leaky(conj, first, [])[0]);
      ScriptRefines(cfg, Leaky(conj, first, []), trace);
    } else {
      var (o, w) := Run(cfg, first, 1, World(trace, 0));
      CallsAreSafe(cfg, ids[1..]);
      LeakIff(cfg, conj, first, ids[0], Calls(ids[1..]), trace);
      if |ids| > 1 { CallsAreSeen(cfg, ids[1..], 2, World(w.trace + [Called(ids[0])], cfg.answer(ids[0], w.trace))); }
    }
  }

  const RETURNING: seq<Action> := [Drop(Number(1), ReturnFlag)]

  /** The smallest leaking script, { return(1); } && { f(); g(); } with f answering 1: g is
      never called. */
  lemma SmallestLeak(cfg: Config)
    requires SafeConfig(cfg) && cfg.answer(0, []) != 0
    ensures MMeaning(cfg, Leaky(true, RETURNING, Calls([0, 1])), [])
            != Meaning(cfg, Leaky(true, RETURNING, Calls([0, 1])), [])
  {
    assert Run(cfg, RETURNING, 1, World([], 0)) == (Returned(1), World([], 0));
    LeakyIff(cfg, true, RETURNING, [0, 1], []);
  }

  // ----- What the structured meaning promises

  /** Sequencing: a list stops at the first action that does not fall through, and
      nothing behind it runs. */
  lemma {:induction false} RunSeqConcat(cfg: Config, a: seq<Action>, b: seq<Action>, lev: nat, w: World)
    requires a != [] && b != [] && lev <= ROUTE_MAX_REC_LEV
    ensures var r := RunSeq(cfg, a, lev, w);
            RunSeq(cfg, a + b, lev, w) == if r.0.Next? then RunSeq(cfg, b, lev, r.1) else r
  {
    assert (a + b)[0] == a[0];
    if |a| == 1 {
      assert (a + b)[1..] == b;
    } else {
      assert (a + b)[1..] == a[1..] + b;
      RunSeqConcat(cfg, a[1..], b, lev, Do(cfg, a[0], lev, w).1);
    }
  }
}
