/** The rewrite of `t = t + p0 + p1 + ...` into nested appends to the string of `t`. */
module AppendChain {
  import opened Ir
  import HiddenEdges

  // ----- The guard against parts that look at the target -----

  predicate Aliases(t: IrSymbol, e: IrExpr)
    decreases e
  {
    var k := e.kind;
    if k.Symbol? || k.SharedVariable? then k.symbol == t
    else if HasPair(k) then Aliases(t, k.left) || Aliases(t, k.right)
    else if HasOperand(k) then Aliases(t, k.operand)
    else if k.FunctionCall? then SomeAliases(t, k.args)
    else if k.ArrayAccess? then k.symbol == t || Aliases(t, k.index) || SomeAliases(t, k.extra)
    else false
  }

  predicate SomeAliases(t: IrSymbol, es: seq<IrExpr>)
    decreases es
  {
    es != [] && (Aliases(t, es[0]) || SomeAliases(t, es[1..]))
  }

  /** The symbols whose text the value of an expression can depend on. UBOUND of a string is its length less
      one; SIZE of a symbol is fixed. */
  function Reads(e: IrExpr): set<IrSymbol>
    decreases e
  {
    var k := e.kind;
    if k.Symbol? || k.SharedVariable? || k.ArrayUBound? then {k.symbol}
    else if HasPair(k) then Reads(k.left) + Reads(k.right)
    else if HasOperand(k) then Reads(k.operand)
    else if k.FunctionCall? then ReadsAll(k.args)
    else if k.ArrayAccess? then {k.symbol} + Reads(k.index) + ReadsAll(k.extra)
    else {}
  }

  function ReadsAll(es: seq<IrExpr>): set<IrSymbol>
    decreases es
  {
    if es == [] then {} else Reads(es[0]) + ReadsAll(es[1..])
  }

  /** UBOUND of the target occurs in the expression. */
  predicate Measures(t: IrSymbol, e: IrExpr)
    decreases e
  {
    var k := e.kind;
    if k.ArrayUBound? then k.symbol == t
    else if HasPair(k) then Measures(t, k.left) || Measures(t, k.right)
    else if HasOperand(k) then Measures(t, k.operand)
    else if k.FunctionCall? then SomeMeasures(t, k.args)
    else if k.ArrayAccess? then Measures(t, k.index) || SomeMeasures(t, k.extra)
    else false
  }

  predicate SomeMeasures(t: IrSymbol, es: seq<IrExpr>)
    decreases es
  {
    es != [] && (Measures(t, es[0]) || SomeMeasures(t, es[1..]))
  }

  /** The guard sees every look at the target except those through UBOUND. */
  lemma {:induction false} GuardSees(t: IrSymbol, e: IrExpr)
    ensures t in Reads(e) <==> Aliases(t, e) || Measures(t, e)
    decreases e
  {
    var k := e.kind;
    if HasPair(k) {
      GuardSees(t, k.left);
      GuardSees(t, k.right);
    } else if HasOperand(k) {
      GuardSees(t, k.operand);
    } else if k.FunctionCall? {
      GuardSeesAll(t, k.args);
    } else if k.ArrayAccess? {
      GuardSees(t, k.index);
      GuardSeesAll(t, k.extra);
    }
  }

  lemma {:induction false} GuardSeesAll(t: IrSymbol, es: seq<IrExpr>)
    ensures t in ReadsAll(es) <==> SomeAliases(t, es) || SomeMeasures(t, es)
    decreases es
  {
    if es != [] {
      GuardSees(t, es[0]);
      GuardSeesAll(t, es[1..]);
    }
  }

  /** Some part of the expression is a look at the target of the given kind. */
  ghost predicate Within(e: IrExpr, what: IrExpr -> bool) {
    exists x :: HiddenEdges.Occurs(x, e) && what(x)
  }

  ghost predicate WithinSome(es: seq<IrExpr>, what: IrExpr -> bool) {
    exists x :: HiddenEdges.OccursInSome(x, es) && what(x)
  }

  lemma WithinParts(e: IrExpr, what: IrExpr -> bool)
    ensures var k := e.kind;
      Within(e, what) <==> (
        || what(e) || (HasOperand(k) && Within(k.operand, what))
        || (HasPair(k) && (Within(k.left, what) || Within(k.right, what)))
        || (k.FunctionCall? && WithinSome(k.args, what))
        || (k.ArrayAccess? && (Within(k.index, what) || WithinSome(k.extra, what))))
  {
    assert HiddenEdges.Occurs(e, e);
    if x :| HiddenEdges.Occurs(x, e) && what(x) {
    }
  }

  lemma WithinMembers(es: seq<IrExpr>, what: IrExpr -> bool)
    ensures WithinSome(es, what) <==> es != [] && (Within(es[0], what) || WithinSome(es[1..], what))
  {
    hide HiddenEdges.Occurs;
    if x :| HiddenEdges.OccursInSome(x, es) && what(x) {
    }
  }

  function Caught(t: IrSymbol): IrExpr -> bool {
    (x: IrExpr) => x.kind == Symbol(t) || x.kind == SharedVariable(t) || (x.kind.ArrayAccess? && x.kind.symbol == t)
  }

  function Missed(t: IrSymbol): IrExpr -> bool {
    (x: IrExpr) => x.kind == ArrayUBound(t)
  }

  /** The guard looks for the target as a variable or as the array of an access, at any depth; what it leaves is
      UBOUND of the target. */
  lemma {:induction false} GuardLooksFor(t: IrSymbol, e: IrExpr)
    ensures Aliases(t, e) <==> Within(e, Caught(t))
    ensures Measures(t, e) <==> Within(e, Missed(t))
    decreases e
  {
    hide Within, WithinSome;
    var k := e.kind;
    if HasPair(k) {
      GuardLooksFor(t, k.left);
      GuardLooksFor(t, k.right);
    } else if HasOperand(k) {
      GuardLooksFor(t, k.operand);
    } else if k.FunctionCall? {
      GuardLooksIn(t, k.args);
    } else if k.ArrayAccess? {
      GuardLooksFor(t, k.index);
      GuardLooksIn(t, k.extra);
    }
    WithinParts(e, Caught(t));
    WithinParts(e, Missed(t));
  }

  lemma {:induction false} GuardLooksIn(t: IrSymbol, es: seq<IrExpr>)
    ensures SomeAliases(t, es) <==> WithinSome(es, Caught(t))
    ensures SomeMeasures(t, es) <==> WithinSome(es, Missed(t))
    decreases es
  {
    hide Within, WithinSome;
    if es != [] {
      GuardLooksFor(t, es[0]);
      GuardLooksIn(t, es[1..]);
    }
    WithinMembers(es, Caught(t));
    WithinMembers(es, Missed(t));
  }

  // ----- Collecting the chain -----

  /** The parts added to the target, first to last, if the expression is such a chain of text sums. */
  function Spine(t: IrSymbol, e: IrExpr): Option<seq<IrExpr>>
    decreases e
  {
    var k := e.kind;
    if k.Arithmetic? && k.arithOp == Add && e.valueType == String then
      if Aliases(t, k.right) then None
      else
        var front := Spine(t, k.left);
        if front.None? then None else Some(front.value + [k.right])
    else if k.Symbol? && k.symbol == t then Some([])
    else None
  }

  /** `arrayOnly`: the name is a dynamic array and not a scalar as well. */
  function Chain(t: IrSymbol, e: IrExpr, arrayOnly: bool): Option<seq<IrExpr>> {
    if e.valueType != String || arrayOnly || Spine(t, e) == Some([]) then None else Spine(t, e)
  }

  /** The target with the parts added one after the other, from the left, as sums of strings. */
  predicate AddedUp(t: IrSymbol, parts: seq<IrExpr>, e: IrExpr)
    decreases |parts|
  {
    if parts == [] then e.kind == Symbol(t)
    else
      && e.valueType == String && e.kind.Arithmetic? && e.kind.arithOp == Add && e.kind.right == parts[|parts| - 1]
      && AddedUp(t, parts[..|parts| - 1], e.kind.left)
  }

  /** A chain is collected exactly when the expression is the target with one part or more added, and the guard
      catches none of them. */
  lemma ChainExactly(t: IrSymbol, e: IrExpr, parts: seq<IrExpr>)
    ensures Chain(t, e, false) == Some(parts) <==>
              parts != [] && AddedUp(t, parts, e) && forall k :: 0 <= k < |parts| ==> !Aliases(t, parts[k])
  {
    hide Aliases;
    SpineExactly(t, e, parts);
  }

  lemma {:induction false} SpineExactly(t: IrSymbol, e: IrExpr, parts: seq<IrExpr>)
    ensures Spine(t, e) == Some(parts) <==>
              AddedUp(t, parts, e) && forall k :: 0 <= k < |parts| ==> !Aliases(t, parts[k])
    decreases |parts|
  {
    hide Aliases;
    if parts != [] {
      var front, last := parts[..|parts| - 1], parts[|parts| - 1];
      assert parts == front + [last];
      assert forall k :: 0 <= k < |front| ==> front[k] == parts[k];
      if e.kind.Arithmetic? {
        SpineExactly(t, e.kind.left, front);
      }
    }
  }

  function Reversed(s: seq<IrExpr>): seq<IrExpr> {
    if s == [] then [] else Reversed(s[1..]) + [s[0]]
  }

  lemma {:induction false} ReversedSnoc(s: seq<IrExpr>, x: IrExpr)
    ensures Reversed(s + [x]) == [x] + Reversed(s)
  {
    if s == [] {
      assert (s + [x])[1..] == [];
    } else {
      ReversedSnoc(s[1..], x);
      assert (s + [x])[1..] == s[1..] + [x];
    }
  }

  lemma {:induction false} ReversedEmpty(s: seq<IrExpr>)
    ensures |Reversed(s)| == |s|
  {
    if s != [] {
      ReversedEmpty(s[1..]);
    }
  }

  /** The parts behind those still to be found. */
  function Behind(front: Option<seq<IrExpr>>, parts: seq<IrExpr>): Option<seq<IrExpr>> {
    if front.None? then None else Some(front.value + Reversed(parts))
  }

  lemma BehindNothing(front: Option<seq<IrExpr>>)
    ensures Behind(front, []) == front
  {
    if front.Some? {
      assert front.value + [] == front.value;
    }
  }

  method CollectAppendChain(t: IrSymbol, e: IrExpr, arrayOnly: bool) returns (chain: Option<seq<IrExpr>>)
    ensures chain == Chain(t, e, arrayOnly)
  {
    hide Aliases;
    if e.valueType != String || arrayOnly {
      return None;
    }
    var parts, cur := [], e;
    BehindNothing(Spine(t, e));
    while true
      invariant Spine(t, e) == Behind(Spine(t, cur), parts)
      decreases cur
    {
      var k := cur.kind;
      if k.Arithmetic? && k.arithOp == Add && cur.valueType == String {
        if Aliases(t, k.right) {
          return None;
        }
        ReversedSnoc(parts, k.right);
        ghost var front := Spine(t, k.left);
        assert front.Some? ==> front.value + [k.right] + Reversed(parts) == front.value + ([k.right] + Reversed(parts));
        parts, cur := parts + [k.right], k.left;
      } else if k.Symbol? && k.symbol == t {
        ReversedEmpty(parts);
        assert [] + Reversed(parts) == Reversed(parts);
        if parts == [] {
          return None;
        }
        return Some(Reversed(parts));
      } else {
        return None;
      }
    }
  }

  // ----- What the statement means, and what the nested appends do -----

  /** The text of a part when the target shows a given text; all else stands still during the statement. */
  type Texts = (IrExpr, string) -> string

  /** A part that does not look at the target has the same text whatever the target shows. */
  ghost predicate Honest(t: IrSymbol, text: Texts) {
    forall e, v, v' :: t !in Reads(e) ==> text(e, v) == text(e, v')
  }

  /** The sum from the left, every part read before the assignment. */
  function Sum(t: IrSymbol, e: IrExpr, text: Texts, was: string): string
    requires Spine(t, e).Some?
    decreases e
  {
    var k := e.kind;
    if k.Arithmetic? then Sum(t, k.left, text, was) + text(k.right, was) else was
  }

  /** The events of evaluating nested append calls. An argument is evaluated some time before its call; a
      call writes in place, or moves the string and leaves `junk` where the target still points. */
  datatype Event = Eval(k: nat) | Apply(k: nat, moved: bool, junk: string)

  /** What the target shows, the string appended to so far, the calls done, the arguments evaluated. */
  datatype State = State(view: string, acc: string, done: nat, texts: map<nat, string>)

  function Start(was: string): State {
    State(was, was, 0, map[])
  }

  /** One event in an order that C allows; no order between arguments and earlier calls is prescribed. */
  function Step(parts: seq<IrExpr>, text: Texts, s: State, ev: Event): Option<State> {
    match ev
    case Eval(k) =>
      if k < |parts| && k !in s.texts then Some(s.(texts := s.texts[k := text(parts[k], s.view)])) else None
    case Apply(k, moved, junk) =>
      if k == s.done && k in s.texts then
        var acc := s.acc + s.texts[k];
        Some(State(if moved then junk else acc, acc, k + 1, s.texts))
      else None
  }

  function Run(parts: seq<IrExpr>, text: Texts, s: State, evs: seq<Event>): Option<State> {
    if evs == [] then Some(s)
    else
      var before := Run(parts, text, s, evs[..|evs| - 1]);
      if before.None? then None else Step(parts, text, before.value, evs[|evs| - 1])
  }

  /** The first `n` parts joined onto `was`, each read before the assignment. */
  function Joined(parts: seq<IrExpr>, text: Texts, was: string, n: nat): string
    requires n <= |parts|
  {
    if n == 0 then was else Joined(parts, text, was, n - 1) + text(parts[n - 1], was)
  }

  predicate Steady(parts: seq<IrExpr>, text: Texts, was: string, s: State) {
    && s.done <= |parts| && s.acc == Joined(parts, text, was, s.done)
    && (s.done == 0 ==> s.view == was) && (s.done > 0 ==> 0 in s.texts)
    && forall k :: k in s.texts ==> k < |parts| && s.texts[k] == text(parts[k], was)
  }

  /** Whatever the order, every argument evaluates to what it was before the statement. */
  lemma {:induction false} RunSteady(t: IrSymbol, parts: seq<IrExpr>, text: Texts, was: string, evs: seq<Event>)
    requires Honest(t, text) && forall k :: 0 < k < |parts| ==> t !in Reads(parts[k])
    ensures var end := Run(parts, text, Start(was), evs); end.Some? ==> Steady(parts, text, was, end.value)
  {
    if evs != [] {
      RunSteady(t, parts, text, was, evs[..|evs| - 1]);
    }
  }

  lemma {:induction false} SumIsJoined(t: IrSymbol, e: IrExpr, text: Texts, was: string)
    requires Spine(t, e).Some?
    ensures var parts := Spine(t, e).value; Sum(t, e, text, was) == Joined(parts, text, was, |parts|)
    decreases e
  {
    var k := e.kind;
    if k.Arithmetic? {
      SumIsJoined(t, k.left, text, was);
      var front := Spine(t, k.left).value;
      JoinedPrefix(front, k.right, text, was, |front|);
    }
  }

  lemma {:induction false} JoinedPrefix(front: seq<IrExpr>, last: IrExpr, text: Texts, was: string, n: nat)
    requires n <= |front|
    ensures Joined(front + [last], text, was, n) == Joined(front, text, was, n)
  {
    if n > 0 {
      JoinedPrefix(front, last, text, was, n - 1);
    }
  }

  lemma {:induction false} SpineGuarded(t: IrSymbol, e: IrExpr)
    requires Spine(t, e).Some?
    ensures forall k :: 0 <= k < |Spine(t, e).value| ==> !Aliases(t, Spine(t, e).value[k])
    decreases e
  {
    hide Aliases;
    if e.kind.Arithmetic? {
      SpineGuarded(t, e.kind.left);
    }
  }

  /** In any order of evaluation the nested appends leave the sum, if no part after the first takes the
      UBOUND of the target. */
  lemma AppendsAreSum(t: IrSymbol, e: IrExpr, arrayOnly: bool, text: Texts, was: string, evs: seq<Event>)
    requires Chain(t, e, arrayOnly).Some? && Honest(t, text)
    requires var parts := Chain(t, e, arrayOnly).value; forall k :: 0 < k < |parts| ==> !Measures(t, parts[k])
    ensures var parts := Chain(t, e, arrayOnly).value;
            var end := Run(parts, text, Start(was), evs);
            end.Some? && end.value.done == |parts| ==> end.value.acc == Sum(t, e, text, was)
  {
    hide Spine, Aliases, Measures, Reads, Run;
    var parts := Chain(t, e, arrayOnly).value;
    SpineGuarded(t, e);
    forall k | 0 < k < |parts| ensures t !in Reads(parts[k]) {
      GuardSees(t, parts[k]);
    }
    RunSteady(t, parts, text, was, evs);
    SumIsJoined(t, e, text, was);
  }

  /** Arguments and calls by turns, always in place: one of the allowed orders. */
  function ByTurns(n: nat): seq<Event> {
    if n == 0 then [] else ByTurns(n - 1) + [Eval(n - 1), Apply(n - 1, false, "")]
  }

  /** The text grows by one for each part, and by the text shown for a part that measures the target. */
  ghost function Measured(t: IrSymbol): Texts {
    (e, v) => if Measures(t, e) then v + "x" else "x"
  }

  lemma MeasuredHonest(t: IrSymbol)
    ensures Honest(t, Measured(t))
  {
    forall e, v: string, v': string | t !in Reads(e) ensures Measured(t)(e, v) == Measured(t)(e, v') {
      GuardSees(t, e);
    }
  }

  /** The state after the turns of the first `n` parts: nothing pending, and longer than the sum as soon as
      a part has measured the target. */
  ghost predicate Longer(t: IrSymbol, parts: seq<IrExpr>, was: string, n: nat, s: State)
    requires n <= |parts|
  {
    && s.done == n && s.view == s.acc && (forall k :: k in s.texts ==> k < n)
    && |Joined(parts, Measured(t), was, n)| <= |s.acc| && |was| + n <= |s.acc|
    && ((exists k :: 0 < k < n && Measures(t, parts[k])) ==> |Joined(parts, Measured(t), was, n)| < |s.acc|)
  }

  lemma TurnLonger(t: IrSymbol, parts: seq<IrExpr>, was: string, n: nat, s: State)
    requires n < |parts| && Longer(t, parts, was, n, s)
    ensures var mid := Step(parts, Measured(t), s, Eval(n));
      && mid.Some?
      && var end := Step(parts, Measured(t), mid.value, Apply(n, false, ""));
         end.Some? && Longer(t, parts, was, n + 1, end.value)
  {
    hide Measures;
  }

  lemma {:induction false} ByTurnsLonger(t: IrSymbol, parts: seq<IrExpr>, was: string, n: nat)
    requires n <= |parts|
    ensures var end := Run(parts, Measured(t), Start(was), ByTurns(n)); end.Some? && Longer(t, parts, was, n, end.value)
  {
    hide Measures, Longer, Joined, Step;
    if n == 0 {
      StartLonger(t, parts, was);
    } else {
      ByTurnsLonger(t, parts, was, n - 1);
      var evs, evs' := ByTurns(n), ByTurns(n - 1) + [Eval(n - 1)];
      assert evs == evs' + [Apply(n - 1, false, "")];
      assert evs[..|evs| - 1] == evs' && evs'[..|evs'| - 1] == ByTurns(n - 1);
      TurnLonger(t, parts, was, n - 1, Run(parts, Measured(t), Start(was), ByTurns(n - 1)).value);
    }
  }

  lemma StartLonger(t: IrSymbol, parts: seq<IrExpr>, was: string)
    ensures Longer(t, parts, was, 0, Start(was))
  {
  }

  /** The condition is exact: whatever the chain, a part after the first that takes the UBOUND of the target
      can make an allowed order of evaluation differ from the sum. */
  lemma MeasuringPartsMatter(t: IrSymbol, e: IrExpr, arrayOnly: bool, was: string, k: nat)
    requires Chain(t, e, arrayOnly).Some?
    requires 0 < k < |Chain(t, e, arrayOnly).value| && Measures(t, Chain(t, e, arrayOnly).value[k])
    ensures exists text, evs :: Honest(t, text) && Differs(t, e, Chain(t, e, arrayOnly).value, text, was, evs)
  {
    hide Spine, Measures, Run, Joined, Sum;
    var parts := Chain(t, e, arrayOnly).value;
    MeasuredHonest(t);
    ByTurnsLonger(t, parts, was, |parts|);
    SumIsJoined(t, e, Measured(t), was);
    assert Differs(t, e, parts, Measured(t), was, ByTurns(|parts|));
  }

  ghost predicate Differs(t: IrSymbol, e: IrExpr, parts: seq<IrExpr>, text: Texts, was: string, evs: seq<Event>)
    requires Spine(t, e).Some?
  {
    var end := Run(parts, text, Start(was), evs);
    end.Some? && end.value.done == |parts| && end.value.acc != Sum(t, e, text, was)
  }

  // ----- The same with a library call -----

  function Repeat(c: char, n: nat): (s: string)
    ensures |s| == n
  {
    seq(n, _ => c)
  }

  /** The numbers of the example: character codes, and the UBOUND of the target when it shows `v`. */
  function Number(t: IrSymbol, e: IrExpr, v: string): int {
    if e.kind.ArrayUBound? && e.kind.symbol == t then |v| - 1
    else if e.kind.IntegerLiteral? && e.kind.digits == "65" then 65
    else 0
  }

  /** `CHR$(c, n)` is the character `c` as often as `n` says, and once for less than one. */
  function Text(t: IrSymbol, e: IrExpr, v: string): string {
    var k := e.kind;
    if k.StringLiteral? then k.value
    else if k.FunctionCall? && k.name == "CHR$" && |k.args| == 2 then
      var c, n := Number(t, k.args[0], v), Number(t, k.args[1], v);
      Repeat((c % 256) as char, if n < 1 then 1 else n)
    else []
  }

  lemma TextHonest(t: IrSymbol)
    ensures Honest(t, (e, v) => Text(t, e, v))
  {
    forall e, v: string, v': string | t !in Reads(e) ensures Text(t, e, v) == Text(t, e, v') {
      var k := e.kind;
      if k.FunctionCall? && |k.args| == 2 {
        assert ReadsAll(k.args) == Reads(k.args[0]) + (Reads(k.args[1]) + ReadsAll(k.args[1..][1..]));
      }
    }
  }

  function Name(t: IrSymbol): IrExpr {
    IrExpr(Symbol(t), String)
  }

  const X: IrExpr := IrExpr(StringLiteral("x"), String)

  function ManyAs(t: IrSymbol): IrExpr {
    IrExpr(FunctionCall("CHR$", [IrExpr(IntegerLiteral("65"), Integer), IrExpr(ArrayUBound(t), Integer)]), String)
  }

  /** `t = t + "x" + CHR$(65, UBOUND(t))` */
  function Example(t: IrSymbol): IrExpr {
    IrExpr(Arithmetic(Add, IrExpr(Arithmetic(Add, Name(t), X), String), ManyAs(t)), String)
  }

  lemma ExampleParts(t: IrSymbol)
    ensures Chain(t, Example(t), false) == Spine(t, Example(t)) == Some([X, ManyAs(t)])
  {
    var args := ManyAs(t).kind.args;
    assert args[1..] == [args[1]] && [args[1]][1..] == [];
    assert !Aliases(t, args[0]) && !Aliases(t, args[1]);
    assert !SomeAliases(t, [args[1]]);
    assert !SomeAliases(t, args);
    assert !Aliases(t, X) && !Aliases(t, ManyAs(t));
    var left := Example(t).kind.left;
    assert Spine(t, left.kind.left) == Some([]);
    assert Spine(t, left) == Some([] + [X]);
    assert [] + [X] == [X] && [X] + [ManyAs(t)] == [X, ManyAs(t)];
  }

  /** With two characters or more in the target, the appends in place add one `A` more than the sum: the UBOUND
      is taken when the `x` is already there. */
  lemma UBoundAppended(t: IrSymbol, was: string)
    requires |was| >= 2
    ensures var e, text: Texts := Example(t), (e, v) => Text(t, e, v);
      && Chain(t, e, false) == Spine(t, e) == Some([X, ManyAs(t)]) && Honest(t, text)
      && Sum(t, e, text, was) == was + "x" + Repeat('A', |was| - 1)
      && Differs(t, e, [X, ManyAs(t)], text, was, ByTurns(2))
      && var end := Run([X, ManyAs(t)], text, Start(was), ByTurns(2));
         end.Some? && end.value.done == 2 && end.value.acc == was + "x" + Repeat('A', |was|)
  {
    hide Spine, Chain, Honest, ByTurns, Run;
    var e, parts, text: Texts := Example(t), [X, ManyAs(t)], (e, v) => Text(t, e, v);
    ExampleParts(t);
    TextHonest(t);
    SumIsJoined(t, e, text, was);
    TwoTurns(parts, text, was);
  }

  lemma TwoTurns(parts: seq<IrExpr>, text: Texts, was: string)
    requires |parts| == 2
    ensures Joined(parts, text, was, 2) == was + text(parts[0], was) + text(parts[1], was)
    ensures var a := was + text(parts[0], was);
            var end := Run(parts, text, Start(was), ByTurns(2));
            end.Some? && end.value.done == 2 && end.value.acc == a + text(parts[1], a)
  {
    assert Joined(parts, text, was, 1) == Joined(parts, text, was, 0) + text(parts[0], was);
    assert ByTurns(1) == ByTurns(0) + [Eval(0), Apply(0, false, "")];
    var evs := [Eval(0), Apply(0, false, ""), Eval(1), Apply(1, false, "")];
    assert ByTurns(2) == evs;
    assert evs[..3][..2] == evs[..2] && evs[..2][..1] == evs[..1] && evs[..1][..0] == [];
    var s0 := Start(was);
    var s1 := Step(parts, text, s0, evs[0]).value;
    var s2 := Step(parts, text, s1, evs[1]).value;
    var s3 := Step(parts, text, s2, evs[2]).value;
    assert Run(parts, text, s0, evs[..0]) == Some(s0);
    assert Run(parts, text, s0, evs[..1]) == Some(s1);
    assert Run(parts, text, s0, evs[..2]) == Some(s2);
    assert Run(parts, text, s0, evs[..3]) == Some(s3);
    assert Run(parts, text, s0, evs) == Step(parts, text, s3, evs[3]);
  }
}
