/** The script interpreter with its globals: run_flags, last_retcode, the recursion
    counter and the jump to the outermost frame. */
module Interpreter {
  import opened Script

  class Runner {
    const cfg: Config
    var exitFlag: bool            // EXIT_R_F of run_flags
    var returnFlag: bool          // RETURN_R_F of run_flags
    var lastRetcode: int
    var recLev: nat
    var trace: seq<Event>

    constructor (cfg: Config)
      ensures this.cfg == cfg && recLev == 0 && trace == []
    {
      this.cfg := cfg;
      exitFlag, returnFlag, lastRetcode, recLev, trace := false, false, 0, 0, [];
    }

    ghost function View(): Globals
      reads this
    {
      Globals(trace, lastRetcode, returnFlag)
    }

    /** What a call computed: it came back to the same level with nothing but the
        predicted globals, or a jump is under way. */
    ghost predicate Did(ret: int, jumped: bool, lev: nat, r: (Back, Globals))
      reads this
    {
      r.0 == (if jumped then Jump(ret) else Ret(ret))
      && View() == r.1
      && (!jumped ==> recLev == lev && !exitFlag)
      && (jumped ==> lastRetcode == ret)
    }

    /** run_actions below the outermost frame. */
    method RunNested(a: seq<Action>) returns (ret: int, jumped: bool)
      requires 0 < recLev <= ROUTE_MAX_REC_LEV && !exitFlag
      modifies this
      ensures Did(ret, jumped, old(recLev), MRun(cfg, a, old(recLev), old(View())))
      decreases ROUTE_MAX_REC_LEV + 1 - recLev, 0
    {
      recLev := recLev + 1;
      if recLev > ROUTE_MAX_REC_LEV {
        recLev := recLev - 1;
        return E_UNSPEC, false;
      }
      ret, jumped := RunLoop(a);
      if !jumped { recLev := recLev - 1; }
    }

    /** The loop over the actions of a list, with the look at run_flags behind
        every action. */
    method RunLoop(a: seq<Action>) returns (ret: int, jumped: bool)
      requires 0 < recLev <= ROUTE_MAX_REC_LEV && !exitFlag
      modifies this
      ensures Did(ret, jumped, old(recLev),
                  if a == [] then (Ret(1), old(View())) else MSeq(cfg, a, old(recLev), old(View())))
      decreases ROUTE_MAX_REC_LEV + 1 - recLev, 1, a, 1
    {
      ret, jumped := E_UNSPEC, false;
      if a == [] { ret := 1; }
      ghost var lev, goal := recLev, if a == [] then (Ret(1), View()) else MSeq(cfg, a, recLev, View());
      var i := 0;
      while i < |a|
        invariant 0 <= i <= |a| && recLev == lev && !exitFlag && !jumped
        invariant i < |a| ==> MSeq(cfg, a[i..], lev, View()) == goal
        invariant i == |a| ==> goal == (Ret(ret), View())
      {
        assert a[i..][0] == a[i] && a[i..][1..] == a[i + 1..];
        ret, jumped := DoAction(a[i]);
        if jumped { return; }
        if returnFlag || exitFlag {
          if exitFlag {
            lastRetcode := ret;
            return ret, true;
          }
          break;
        }
        i := i + 1;
      }
    }

    /** The DROP_T, ROUTE_T, IF_T and MODULE_T cases of do_action. EXIT_R_F makes
        the loop around it jump. */
    method DoAction(a: Action) returns (ret: int, jumped: bool)
      requires 0 < recLev <= ROUTE_MAX_REC_LEV && !exitFlag
      modifies this
      ensures jumped ==> Did(ret, true, old(recLev), MDo(cfg, a, old(recLev), old(View())))
      ensures !jumped && !exitFlag ==> Did(ret, false, old(recLev), MDo(cfg, a, old(recLev), old(View())))
      ensures !jumped && exitFlag ==>
                MDo(cfg, a, old(recLev), old(View())) == (Jump(ret), View().(rc := ret))
      decreases ROUTE_MAX_REC_LEV + 1 - recLev, 1, a, 0
    {
      ret, jumped := E_BUG, false;
      match a {
        case Drop(code, flag) =>
          ret := if code.RetCode? then lastRetcode else code.n;
          if flag.ExitFlag? { exitFlag := true; } else { returnFlag := true; }
        case Route(n) =>
          if n >= |cfg.routes| || n < 0 { return E_CFG, false; }
          ret, jumped := RunNested(cfg.routes[n]);
          if jumped { return; }
          lastRetcode := ret;
          returnFlag := false;
        case If(cond, t, e) =>
          var v;
          v, jumped := EvalExpr(cond);
          if jumped { return v, true; }
          returnFlag := false;
          ret := 1;
          if v > 0 {
            if t != [] { ret, jumped := RunNested(t); }
          } else if e != [] {
            ret, jumped := RunNested(e);
          }
        case IfNull =>
        case Module(id) =>
          ret := cfg.answer(id, trace);
          trace := trace + [Called(id)];
          if ret == 0 { exitFlag := true; }
          lastRetcode := ret;
        case BadModule =>
      }
    }

    /** eval_expr with the ACTION_O case of eval_elem. */
    method EvalExpr(e: Expr) returns (ret: int, jumped: bool)
      requires 0 < recLev <= ROUTE_MAX_REC_LEV && !exitFlag
      modifies this
      ensures Did(ret, jumped, old(recLev), MEval(cfg, e, old(recLev), old(View())))
      decreases ROUTE_MAX_REC_LEV + 1 - recLev, 1, e, 0
    {
      jumped := false;
      match e {
        case And(l, r) =>
          ret, jumped := EvalExpr(l);
          if jumped || ret != 1 { return; }
          ret, jumped := EvalExpr(r);
        case Or(l, r) =>
          ret, jumped := EvalExpr(l);
          if jumped || ret != 0 { return; }
          ret, jumped := EvalExpr(r);
        case Not(x) =>
          ret, jumped := EvalExpr(x);
          if jumped || ret < 0 { return; }
          ret := if ret == 0 then 1 else 0;
        case Num(n) => ret := if n != 0 then 1 else 0;
        case LastCode(op, right) => ret := CompNum(op, lastRetcode, right);
        case Act(list) =>
          ret, jumped := RunNested(list);
          if jumped { return; }
          ret := if ret <= 0 then 0 else 1;
        case Test(id) => ret := cfg.test(id, trace);
        case BadExpr => ret := -1;
      }
    }

    /** run_actions called from outside any script: resets the flags, sets the jump
        target, and runs the onbreak handlers on result 0. The recursion counter
        is 0 afterwards whether the script fell through, returned or exited. Where
        no list is cut short, the result is the structured meaning. */
    method RunActions(a: seq<Action>) returns (ret: int)
      requires recLev == 0
      modifies this
      ensures recLev == 0
      ensures (ret, World(trace, lastRetcode)) == MMeaning(cfg, a, old(trace))
      ensures !CutRun(cfg, a, 0, Globals(old(trace), 0, false))
              ==> (ret, World(trace, lastRetcode)) == Meaning(cfg, a, old(trace))
    {
      ScriptExact(cfg, a, trace);
      recLev := recLev + 1;
      exitFlag, returnFlag, lastRetcode := false, false, 0;
      var jumped;
      ret, jumped := RunLoop(a);
      if jumped {
        recLev := 0;
        ret := lastRetcode;
      } else {
        recLev := recLev - 1;
      }
      if recLev == 0 && ret == 0 { trace := trace + [OnBreak]; }
    }
  }
}
