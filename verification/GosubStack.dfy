/** The one GOSUB stack that all activations share, with the stack height at entry as each one's base. */
module GosubStack {
  const DEPTH: nat := 256

  /** A return point: which activation pushed it, and at which statement. */
  datatype Addr = Addr(act: nat, site: nat)

  /** A running activation, with the stack height when it was entered. */
  datatype Activation = Activation(id: nat, base: nat)

  /** The statements that touch the stack. `GosubAt` is the computed form; address zero skips it. `Leave` is
      every way out of a function other than a RETURN without a value. */
  datatype Op = Enter | Gosub(site: nat) | GosubAt(address: int, site: nat) | GosubReturn | Leave

  datatype Outcome = Went | Skipped | Resumed(at: Addr) | Left

  datatype State = State(stack: seq<Addr>, acts: seq<Activation>, next: nat)

  function Top(s: State): Activation
    requires s.acts != []
  {
    s.acts[|s.acts| - 1]
  }

  function Pop(s: State): State
    requires s.acts != []
  {
    s.(acts := s.acts[..|s.acts| - 1])
  }

  function Push(s: State, site: nat): State
    requires s.acts != []
  {
    if |s.stack| < DEPTH then s.(stack := s.stack + [Addr(Top(s).id, site)]) else s
  }

  /** What the emitted code does: a plain GOSUB jumps even when the stack is full. */
  function Step(s: State, op: Op): (State, Outcome)
    requires s.acts != []
  {
    match op
    case Enter => (s.(acts := s.acts + [Activation(s.next, |s.stack|)], next := s.next + 1), Went)
    case Gosub(site) => (Push(s, site), Went)
    case GosubAt(address, site) =>
      if address != 0 && |s.stack| < DEPTH then (Push(s, site), Went) else (s, Skipped)
    case GosubReturn =>
      if |s.stack| > Top(s).base then (s.(stack := s.stack[..|s.stack| - 1]), Resumed(s.stack[|s.stack| - 1]))
      else (Pop(s), Left)
    case Leave => (Pop(s), Left)
  }

  /** A run; nothing happens any more once the last activation is gone. */
  function Run(s: State, ops: seq<Op>): State {
    if ops == [] then s
    else
      var before := Run(s, ops[..|ops| - 1]);
      if before.acts == [] then before else Step(before, ops[|ops| - 1]).0
  }

  // ----- The emitted code on the array -----

  class Machine {
    var stack: array<Addr>
    var sp: nat
    var acts: seq<Activation>
    var next: nat

    ghost predicate Valid()
      reads this, stack
    {
      stack.Length == DEPTH && sp <= DEPTH && Sane(Current())
    }

    ghost function Current(): State
      requires sp <= stack.Length
      reads this, stack
    {
      State(stack[..sp], acts, next)
    }

    constructor ()
      ensures Valid() && Current() == State([], [Activation(0, 0)], 1) && fresh(stack)
    {
      stack := new Addr[DEPTH](_ => Addr(0, 0));
      sp, acts, next := 0, [Activation(0, 0)], 1;
      new;
      assert stack[..0] == [];
    }

    method Enter()
      requires Valid() && acts != []
      modifies this`acts, this`next
      ensures Valid() && Current() == Step(old(Current()), Op.Enter).0
    {
      SaneStep(Current(), Op.Enter);
      acts, next := acts + [Activation(next, sp)], next + 1;
    }

    method Gosub(site: nat)
      requires Valid() && acts != []
      modifies this`sp, stack
      ensures Valid() && Current() == Step(old(Current()), Op.Gosub(site)).0
    {
      SaneStep(Current(), Op.Gosub(site));
      if sp < DEPTH {
        stack[sp] := Addr(acts[|acts| - 1].id, site);
        sp := sp + 1;
        assert stack[..sp] == old(stack[..sp]) + [stack[sp - 1]];
      }
    }

    method GosubAt(address: int, site: nat) returns (o: Outcome)
      requires Valid() && acts != []
      modifies this`sp, stack
      ensures Valid() && (Current(), o) == Step(old(Current()), Op.GosubAt(address, site))
    {
      SaneStep(Current(), Op.GosubAt(address, site));
      o := Skipped;
      if address != 0 && sp < DEPTH {
        stack[sp] := Addr(acts[|acts| - 1].id, site);
        sp := sp + 1;
        assert stack[..sp] == old(stack[..sp]) + [stack[sp - 1]];
        o := Went;
      }
    }

    method GosubReturn() returns (o: Outcome)
      requires Valid() && acts != []
      modifies this`sp, this`acts
      ensures Valid() && (Current(), o) == Step(old(Current()), Op.GosubReturn)
    {
      SaneStep(Current(), Op.GosubReturn);
      if sp > acts[|acts| - 1].base {
        sp := sp - 1;
        assert stack[..sp] == old(stack[..sp])[..sp];
        o := Resumed(stack[sp]);
      } else {
        o := Leave();
      }
    }

    method Leave() returns (o: Outcome)
      requires Valid() && acts != []
      modifies this`acts
      ensures Valid() && (Current(), o) == Step(old(Current()), Op.Leave)
    {
      SaneStep(Current(), Op.Leave);
      acts := acts[..|acts| - 1];
      o := Left;
    }
  }

  // ----- Isolation, in every run -----

  /** Bases never decrease from caller to callee, and none is above the stack. */
  predicate Sane(s: State) {
    && |s.stack| <= DEPTH
    && (forall j :: 0 <= j < |s.acts| ==> s.acts[j].base <= |s.stack|)
    && (forall i, j :: 0 <= i < j < |s.acts| ==> s.acts[i].base <= s.acts[j].base)
  }

  lemma SaneStep(s: State, op: Op)
    requires Sane(s) && s.acts != []
    ensures Sane(Step(s, op).0)
  {
  }

  /** The activation number `j` has not ended at any point of the run. */
  predicate Stays(s: State, ops: seq<Op>, j: nat) {
    |Run(s, ops).acts| > j && (ops == [] || Stays(s, ops[..|ops| - 1], j))
  }

  /** Activation `j` of `s` still runs in `end`, with its callers, and nothing below its base is different. */
  predicate KeepsBelow(s: State, end: State, j: nat)
    requires Sane(s) && j < |s.acts|
  {
    && Sane(end) && j < |end.acts| && end.acts[..j + 1] == s.acts[..j + 1]
    && end.acts[j] == s.acts[j] && end.stack[..s.acts[j].base] == s.stack[..s.acts[j].base]
  }

  lemma KeepsStep(s: State, mid: State, op: Op, j: nat)
    requires Sane(s) && j < |s.acts| && KeepsBelow(s, mid, j) && |Step(mid, op).0.acts| > j
    ensures KeepsBelow(s, Step(mid, op).0, j)
  {
    SaneStep(mid, op);
    assert mid.acts[j].base <= Top(mid).base;
  }

  /** While an activation runs, whatever it calls and however its callees leave, its own base stands and
      nothing below it is popped or overwritten. */
  lemma {:induction false} Isolation(s: State, ops: seq<Op>, j: nat)
    requires Sane(s) && j < |s.acts| && Stays(s, ops, j)
    ensures KeepsBelow(s, Run(s, ops), j)
  {
    hide KeepsBelow, Sane, Step;
    if ops == [] {
      KeepsRefl(s, j);
    } else {
      var front := ops[..|ops| - 1];
      Isolation(s, front, j);
      KeepsStep(s, Run(s, front), ops[|ops| - 1], j);
    }
  }

  lemma KeepsRefl(s: State, j: nat)
    requires Sane(s) && j < |s.acts|
    ensures KeepsBelow(s, s, j)
  {
  }

  /** A call that comes back leaves the caller's stack as it was, with what the callee left on top. */
  lemma CallRestores(s: State, ops: seq<Op>, exit: Op)
    requires Sane(s) && s.acts != [] && Stays(Step(s, Enter).0, ops, |s.acts|)
    requires var end := Run(Step(s, Enter).0, ops); |end.acts| == |s.acts| + 1 && Step(end, exit).1 == Left
    ensures var end := Run(Step(s, Enter).0, ops); var back := Step(end, exit).0;
      back.acts == s.acts && s.stack <= back.stack && (back.stack == s.stack <==> |end.stack| == Top(end).base)
  {
    var called := Step(s, Enter).0;
    SaneStep(s, Enter);
    Isolation(called, ops, |s.acts|);
    var end := Run(called, ops);
    var back := Step(end, exit).0;
    assert end.acts == end.acts[..|s.acts| + 1] == called.acts;
    assert back.stack == end.stack;
    assert s.stack == called.stack[..|s.stack|];
  }

  // ----- Against the meaning: every activation with its own unbounded stack -----

  datatype Own = Own(id: nat, pending: seq<Addr>)
  datatype Ideal = Ideal(owns: seq<Own>, next: nat)

  function IdealStep(m: Ideal, op: Op): (Ideal, Outcome)
    requires m.owns != []
  {
    var n := |m.owns| - 1;
    var top := m.owns[n];
    match op
    case Enter => (Ideal(m.owns + [Own(m.next, [])], m.next + 1), Went)
    case Gosub(site) => (m.(owns := m.owns[n := Own(top.id, top.pending + [Addr(top.id, site)])]), Went)
    case GosubAt(address, site) =>
      if address == 0 then (m, Skipped)
      else (m.(owns := m.owns[n := Own(top.id, top.pending + [Addr(top.id, site)])]), Went)
    case GosubReturn =>
      if top.pending == [] then (m.(owns := m.owns[..n]), Left)
      else
        var k := |top.pending| - 1;
        (m.(owns := m.owns[n := Own(top.id, top.pending[..k])]), Resumed(top.pending[k]))
    case Leave => (m.(owns := m.owns[..n]), Left)
  }

  /** The stack is the pending points of the activations one after the other, each part from its base up;
      later activations have greater numbers, all below `next`. */
  predicate Layered(stack: seq<Addr>, acts: seq<Activation>, owns: seq<Own>, next: nat)
    decreases |acts|
  {
    && |acts| == |owns|
    && if acts == [] then stack == []
       else
         var n := |acts| - 1;
         var a, o := acts[n], owns[n];
         && a.id == o.id < next && a.base <= |stack| && stack[a.base..] == o.pending
         && (forall k :: 0 <= k < |o.pending| ==> o.pending[k].act == o.id)
         && Layered(stack[..a.base], acts[..n], owns[..n], a.id)
  }

  predicate Matches(s: State, m: Ideal) {
    s.next == m.next && Layered(s.stack, s.acts, m.owns, s.next)
  }

  lemma {:induction false} LayeredLater(stack: seq<Addr>, acts: seq<Activation>, owns: seq<Own>, next: nat, later: nat)
    requires Layered(stack, acts, owns, next) && next <= later
    ensures Layered(stack, acts, owns, later)
  {
  }

  /** There is room for every GOSUB, and every function leaves at its base. */
  predicate Orderly(s: State, op: Op)
    requires s.acts != []
  {
    match op
    case Gosub(_) => |s.stack| < DEPTH
    case GosubAt(address, _) => address == 0 || |s.stack| < DEPTH
    case Leave => |s.stack| == Top(s).base
    case _ => true
  }

  /** In an orderly step the code does what the activation's own stack would do: a RETURN resumes behind the
      latest GOSUB of the same activation that has not returned. */
  lemma StepMatches(s: State, m: Ideal, op: Op)
    requires Matches(s, m) && s.acts != [] && Orderly(s, op)
    ensures Matches(Step(s, op).0, IdealStep(m, op).0) && Step(s, op).1 == IdealStep(m, op).1
  {
    var n := |m.owns| - 1;
    var top, base := m.owns[n], Top(s).base;
    if op.Enter? {
      assert s.stack[|s.stack|..] == [] && s.stack[..|s.stack|] == s.stack;
      assert (s.acts + [Activation(s.next, |s.stack|)])[..n + 1] == s.acts;
      assert (m.owns + [Own(m.next, [])])[..n + 1] == m.owns;
    } else if op.Gosub? || op.GosubAt? {
      var a := Addr(top.id, op.site);
      assert (s.stack + [a])[base..] == s.stack[base..] + [a] && (s.stack + [a])[..base] == s.stack[..base];
    } else if op.GosubReturn? && top.pending != [] {
      var shorter := s.stack[..|s.stack| - 1];
      assert shorter[base..] == s.stack[base..][..|top.pending| - 1] && shorter[..base] == s.stack[..base];
    } else {
      assert s.stack[..base] == s.stack;
      LayeredLater(s.stack, s.acts[..n], m.owns[..n], Top(s).id, s.next);
    }
  }

  function Outcomes(s: State, ops: seq<Op>): seq<Outcome>
    decreases ops
  {
    if ops == [] || s.acts == [] then [] else [Step(s, ops[0]).1] + Outcomes(Step(s, ops[0]).0, ops[1..])
  }

  function IdealOutcomes(m: Ideal, ops: seq<Op>): seq<Outcome>
    decreases ops
  {
    if ops == [] || m.owns == [] then []
    else [IdealStep(m, ops[0]).1] + IdealOutcomes(IdealStep(m, ops[0]).0, ops[1..])
  }

  predicate OrderlyRun(s: State, ops: seq<Op>)
    decreases ops
  {
    ops == [] || s.acts == [] || (Orderly(s, ops[0]) && OrderlyRun(Step(s, ops[0]).0, ops[1..]))
  }

  /** Every orderly run behaves as if each activation had a stack of its own. */
  lemma {:induction false} RunMatches(s: State, m: Ideal, ops: seq<Op>)
    requires Matches(s, m) && OrderlyRun(s, ops)
    ensures Outcomes(s, ops) == IdealOutcomes(m, ops)
    decreases ops
  {
    hide Step, IdealStep;
    if ops != [] && s.acts != [] {
      StepMatches(s, m, ops[0]);
      RunMatches(Step(s, ops[0]).0, IdealStep(m, ops[0]).0, ops[1..]);
    }
  }

  /** A program starts with one activation and nothing pending. */
  const START: State := State([], [Activation(0, 0)], 1)
  const IDEAL_START: Ideal := Ideal([Own(0, [])], 1)

  /** Every program that keeps order from its start behaves as if each activation had a stack of its own. */
  lemma ProgramMatches(ops: seq<Op>)
    requires OrderlyRun(START, ops)
    ensures Outcomes(START, ops) == IdealOutcomes(IDEAL_START, ops)
  {
    assert Matches(START, IDEAL_START) by {
      assert [Activation(0, 0)][..0] == [] && [Own(0, [])][..0] == [];
    }
    RunMatches(START, IDEAL_START, ops);
  }

  /** Leaving with a GOSUB pending always shows: the caller's next RETURN resumes in the dead callee. */
  lemma LeakShows(s: State, m: Ideal)
    requires Matches(s, m) && |s.acts| >= 2 && |s.stack| > Top(s).base
    ensures Outcomes(s, [Leave, GosubReturn]) == [Left, Resumed(s.stack[|s.stack| - 1])]
    ensures s.stack[|s.stack| - 1].act == Top(s).id
    ensures Outcomes(s, [Leave, GosubReturn]) != IdealOutcomes(m, [Leave, GosubReturn])
  {
    var n := |m.owns| - 1;
    var dead, base := m.owns[n], Top(s).base;
    assert Layered(s.stack[..base], s.acts[..n], m.owns[..n], dead.id);
    assert s.stack[|s.stack| - 1] == dead.pending[|dead.pending| - 1];
    TwoOutcomes(s, Leave, GosubReturn);
    TwoIdealOutcomes(m, Leave, GosubReturn);
  }

  lemma TwoOutcomes(s: State, a: Op, b: Op)
    requires s.acts != [] && Step(s, a).0.acts != []
    ensures Outcomes(s, [a, b]) == [Step(s, a).1, Step(Step(s, a).0, b).1]
  {
    hide Step;
    var t := Step(s, a).0;
    assert [a, b][1..] == [b] && [b][1..] == [];
    assert Outcomes(t, [b]) == [Step(t, b).1] + Outcomes(Step(t, b).0, []);
  }

  lemma TwoIdealOutcomes(m: Ideal, a: Op, b: Op)
    requires m.owns != [] && IdealStep(m, a).0.owns != []
    ensures IdealOutcomes(m, [a, b]) == [IdealStep(m, a).1, IdealStep(IdealStep(m, a).0, b).1]
  {
    hide IdealStep;
    var t := IdealStep(m, a).0;
    assert [a, b][1..] == [b] && [b][1..] == [];
    assert IdealOutcomes(t, [b]) == [IdealStep(t, b).1] + IdealOutcomes(IdealStep(t, b).0, []);
  }

  function Returns(n: nat): seq<Op> {
    if n == 0 then [] else [GosubReturn] + Returns(n - 1)
  }

  lemma {:induction false} ReturnsOrderly(s: State, n: nat)
    ensures OrderlyRun(s, Returns(n))
    decreases n
  {
    if n > 0 && s.acts != [] {
      ReturnsOrderly(Step(s, GosubReturn).0, n - 1);
    }
  }

  /** When the activation's own stack would hold one return point more, its RETURNs show it. */
  lemma {:induction false} ReturnsDiffer(s: State, m: Ideal, n: nat)
    requires s.acts != [] && m.owns != []
    requires |s.stack| - Top(s).base == n && |m.owns[|m.owns| - 1].pending| == n + 1
    ensures Outcomes(s, Returns(n + 1)) != IdealOutcomes(m, Returns(n + 1))
    decreases n
  {
    var t, i := Step(s, GosubReturn), IdealStep(m, GosubReturn);
    FirstOutcome(s, m, GosubReturn, Returns(n));
    SameParts(t.1, Outcomes(t.0, Returns(n)), i.1, IdealOutcomes(i.0, Returns(n)));
    if n > 0 {
      ReturnsDiffer(t.0, i.0, n - 1);
    }
  }

  lemma SameParts(x: Outcome, a: seq<Outcome>, y: Outcome, b: seq<Outcome>)
    ensures [x] + a == [y] + b <==> x == y && a == b
  {
    assert ([x] + a)[0] == x && ([x] + a)[1..] == a;
    assert ([y] + b)[0] == y && ([y] + b)[1..] == b;
  }

  lemma FirstOutcome(s: State, m: Ideal, op: Op, ops: seq<Op>)
    requires s.acts != [] && m.owns != []
    ensures Outcomes(s, [op] + ops) == [Step(s, op).1] + Outcomes(Step(s, op).0, ops)
    ensures IdealOutcomes(m, [op] + ops) == [IdealStep(m, op).1] + IdealOutcomes(IdealStep(m, op).0, ops)
  {
    hide Step, IdealStep;
    assert ([op] + ops)[1..] == ops;
  }

  /** A GOSUB on a full stack jumps without recording where from, and always shows: as many RETURNs as the
      activation has entries, and one more, do not end where they would. */
  lemma FullStackShows(s: State, m: Ideal, site: nat)
    requires Matches(s, m) && s.acts != [] && |s.stack| >= DEPTH
    ensures Top(s).base <= |s.stack|
    ensures var ops := [Gosub(site)] + Returns(|s.stack| - Top(s).base + 1);
      Outcomes(s, ops) != IdealOutcomes(m, ops)
  {
    var n := |s.stack| - Top(s).base;
    var m' := IdealStep(m, Gosub(site)).0;
    assert |m'.owns[|m'.owns| - 1].pending| == n + 1;
    FirstOutcome(s, m, Gosub(site), Returns(n + 1));
    ReturnsDiffer(s, m', n);
    SameParts(Went, Outcomes(s, Returns(n + 1)), Went, IdealOutcomes(m', Returns(n + 1)));
  }

  /** No orderly continuation tells the step from one on a stack of the activation's own. */
  ghost predicate Unseen(s: State, m: Ideal, op: Op)
    requires s.acts != []
  {
    forall ops :: OrderlyRun(Step(s, op).0, ops) ==> Outcomes(s, [op] + ops) == IdealOutcomes(m, [op] + ops)
  }

  /** A step is right for every orderly continuation exactly when it is orderly itself, or the last activation
      leaves: a GOSUB without room, plain or computed, and a function left with a GOSUB pending always show. */
  lemma UnseenExactly(s: State, m: Ideal, op: Op)
    requires Matches(s, m) && s.acts != []
    ensures Unseen(s, m, op) <==> Orderly(s, op) || (op.Leave? && |s.acts| == 1)
  {
    hide Matches, Step, IdealStep;
    if Orderly(s, op) || (op.Leave? && |s.acts| == 1) {
      forall ops | OrderlyRun(Step(s, op).0, ops) ensures Outcomes(s, [op] + ops) == IdealOutcomes(m, [op] + ops) {
        RightAlways(s, m, op, ops);
      }
    } else {
      var ops := Showing(s, m, op);
    }
  }

  lemma RightAlways(s: State, m: Ideal, op: Op, ops: seq<Op>)
    requires Matches(s, m) && s.acts != [] && OrderlyRun(Step(s, op).0, ops)
    requires Orderly(s, op) || (op.Leave? && |s.acts| == 1)
    ensures Outcomes(s, [op] + ops) == IdealOutcomes(m, [op] + ops)
  {
    FirstOutcome(s, m, op, ops);
    if Orderly(s, op) {
      StepMatches(s, m, op);
      RunMatches(Step(s, op).0, IdealStep(m, op).0, ops);
    }
  }

  lemma Showing(s: State, m: Ideal, op: Op) returns (ops: seq<Op>)
    requires Matches(s, m) && s.acts != [] && !Orderly(s, op) && !(op.Leave? && |s.acts| == 1)
    ensures OrderlyRun(Step(s, op).0, ops) && Outcomes(s, [op] + ops) != IdealOutcomes(m, [op] + ops)
  {
    hide Matches, Outcomes, IdealOutcomes, OrderlyRun, Returns;
    if op.Leave? {
      BaseBelow(s, m);
      LeakShows(s, m);
      OneReturn();
      ops := Returns(1);
      assert [op] + ops == [Leave, GosubReturn];
      ReturnsOrderly(Step(s, op).0, 1);
    } else if op.Gosub? {
      FullStackShows(s, m, op.site);
      var n := |s.stack| - Top(s).base + 1;
      ops := Returns(n);
      ReturnsOrderly(s, n);
    } else {
      SkippedShows(s, m, op);
      ops := Returns(0);
      ReturnsOrderly(s, 0);
    }
  }

  lemma BaseBelow(s: State, m: Ideal)
    requires Matches(s, m) && s.acts != []
    ensures Top(s).base <= |s.stack|
  {
  }

  lemma OneReturn()
    ensures Returns(1) == [GosubReturn]
  {
  }

  lemma SkippedShows(s: State, m: Ideal, op: Op)
    requires Matches(s, m) && s.acts != [] && op.GosubAt? && op.address != 0 && |s.stack| >= DEPTH
    ensures Outcomes(s, [op] + Returns(0)) != IdealOutcomes(m, [op] + Returns(0))
  {
    FirstOutcome(s, m, op, []);
    SameParts(Step(s, op).1, [], IdealStep(m, op).1, []);
  }

  /** The stack takes 256 return points: of any number of GOSUBs from the start, plain or computed with an address,
      the first 256 are kept in order and the others are not. */
  lemma {:induction false} KeepsTheFirst(ops: seq<Op>)
    requires forall k :: 0 <= k < |ops| ==> ops[k].Gosub? || (ops[k].GosubAt? && ops[k].address != 0)
    ensures var s := Run(START, ops);
      && s.acts == START.acts && |s.stack| == (if |ops| <= 256 then |ops| else 256)
      && forall k :: 0 <= k < |s.stack| ==> s.stack[k] == Addr(0, ops[k].site)
  {
    if ops != [] {
      var front := ops[..|ops| - 1];
      assert forall k :: 0 <= k < |front| ==> front[k] == ops[k];
      KeepsTheFirst(front);
    }
  }
}
