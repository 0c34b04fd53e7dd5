/**
 * The tree-walking evaluator. One `Interpreter` owns one heap mapping
 * variable names to i32 values. `Let` writes its assignments into that heap
 * in order and never restores it, so bindings are dynamic: they outlive the
 * `Let` that made them and are visible to everything evaluated afterwards.
 *
 * A panic of the source (an undefined variable, an i32 overflow in `+` or
 * `*` as debug builds check it) is an `Err` result here.
 */
module Interpreter {
  import opened Wrappers
  import opened Integers

  datatype Op = Add | Mult

  datatype Expr =
    | Let(assignments: seq<Assignment>, expr: Expr)
    | Math(op: Op, left: Expr, right: Expr)
    | Var(id: string)
    | Literal(n: i32)

  datatype Assignment = Assignment(name: string, expr: Expr)

  datatype EvalError = UndefinedVariable(id: string) | Overflow

  type Heap = map<string, i32>

  /** A value or the failure, together with the heap as it stands afterwards. */
  datatype Outcome = Outcome(result: Result<i32, EvalError>, heap: Heap)

  /** The heap after a list of assignments, and the failure that stopped it, if any. */
  datatype Assigned = Assigned(failure: Option<EvalError>, heap: Heap)

  /** The exact result of `+` or `*`, before the overflow check. */
  function Apply(op: Op, x: int, y: int): int {
    match op
    case Add => x + y
    case Mult => x * y
  }

  /** Evaluation of an expression, threading the heap through. */
  function Eval(e: Expr, h: Heap): Outcome
    decreases e, 1
  {
    match e
    case Let(assignments, body) =>
      var a := EvalAssignments(assignments, h);
      if a.failure.Some? then Outcome(Err(a.failure.value), a.heap) else Eval(body, a.heap)
    case Math(op, left, right) =>
      var l := Eval(left, h);
      if l.result.Err? then l
      else
        var r := Eval(right, l.heap);
        if r.result.Err? then r
        else
          var v := Apply(op, l.result.value as int, r.result.value as int);
          if InI32(v) then Outcome(Ok(v as i32), r.heap) else Outcome(Err(Overflow), r.heap)
    case Var(id) =>
      if id in h then Outcome(Ok(h[id]), h) else Outcome(Err(UndefinedVariable(id)), h)
    case Literal(n) =>
      Outcome(Ok(n), h)
  }

  /** The assignments of a `Let`, in order, each seeing the heap the earlier ones left. */
  function EvalAssignments(assignments: seq<Assignment>, h: Heap): Assigned
    decreases assignments, 0
  {
    if assignments == [] then Assigned(None, h)
    else
      var o := Eval(assignments[0].expr, h);
      if o.result.Err? then Assigned(Some(o.result.error), o.heap)
      else EvalAssignments(assignments[1..], o.heap[assignments[0].name := o.result.value])
  }

  /** Every name some `Let` inside `e` assigns to. */
  function AssignedNames(e: Expr): set<string>
    decreases e, 1
  {
    match e
    case Let(assignments, body) => AssignedNamesAll(assignments) + AssignedNames(body)
    case Math(_, left, right) => AssignedNames(left) + AssignedNames(right)
    case Var(_) => {}
    case Literal(_) => {}
  }

  function AssignedNamesAll(assignments: seq<Assignment>): set<string>
    decreases assignments, 0
  {
    if assignments == [] then {}
    else {assignments[0].name} + AssignedNames(assignments[0].expr) + AssignedNamesAll(assignments[1..])
  }

  /**
   * `h2` is `h1` after writes to `names` only: no key is removed, new keys
   * are among `names`, and every other key keeps its value.
   */
  ghost predicate WritesOnly(h1: Heap, h2: Heap, names: set<string>) {
    && h1.Keys <= h2.Keys
    && h2.Keys <= h1.Keys + names
    && forall k :: k in h1 && k !in names ==> h2[k] == h1[k]
  }

  /** Evaluation only inserts into the heap, and only under names a `Let` in the expression assigns. */
  lemma {:induction false} EvalWritesOnly(e: Expr, h: Heap)
    ensures WritesOnly(h, Eval(e, h).heap, AssignedNames(e))
    decreases e, 1
  {
    match e
    case Let(assignments, body) =>
      var a := EvalAssignments(assignments, h);
      AssignmentsWriteOnly(assignments, h);
      if a.failure.None? {
        EvalWritesOnly(body, a.heap);
      }
    case Math(op, left, right) =>
      var l := Eval(left, h);
      EvalWritesOnly(left, h);
      if l.result.Ok? {
        EvalWritesOnly(right, l.heap);
      }
    case Var(_) =>
    case Literal(_) =>
  }

  lemma {:induction false} AssignmentsWriteOnly(assignments: seq<Assignment>, h: Heap)
    ensures WritesOnly(h, EvalAssignments(assignments, h).heap, AssignedNamesAll(assignments))
    decreases assignments, 0
  {
    if assignments != [] {
      var first := assignments[0];
      var o := Eval(first.expr, h);
      EvalWritesOnly(first.expr, h);
      if o.result.Ok? {
        AssignmentsWriteOnly(assignments[1..], o.heap[first.name := o.result.value]);
      }
    }
  }

  /** `Literal` yields its value; `Var` reads the heap or fails; neither changes the heap. */
  lemma EvalLeaf(h: Heap, n: i32, id: string)
    ensures Eval(Literal(n), h) == Outcome(Ok(n), h)
    ensures id in h ==> Eval(Var(id), h) == Outcome(Ok(h[id]), h)
    ensures id !in h ==> Eval(Var(id), h) == Outcome(Err(UndefinedVariable(id)), h)
  {
  }

  /**
   * Appending an assignment to a `Let`: it runs after all earlier ones, sees
   * the heap they left, and then overwrites its name with its value.
   */
  lemma {:induction false} AssignmentsSnoc(assignments: seq<Assignment>, last: Assignment, h: Heap)
    ensures var before := EvalAssignments(assignments, h);
            var o := Eval(last.expr, before.heap);
            EvalAssignments(assignments + [last], h) ==
              if before.failure.Some? then before
              else if o.result.Err? then Assigned(Some(o.result.error), o.heap)
              else Assigned(None, o.heap[last.name := o.result.value])
    decreases |assignments|
  {
    var all := assignments + [last];
    if assignments == [] {
      assert all == [last];
      assert all[1..] == [];
    } else {
      assert all[0] == assignments[0] && all[1..] == assignments[1..] + [last];
      var o := Eval(assignments[0].expr, h);
      if o.result.Ok? {
        AssignmentsSnoc(assignments[1..], last, o.heap[assignments[0].name := o.result.value]);
      }
    }
  }

  /** The last assignment to a name wins, with the value computed after all earlier ones. */
  lemma LastAssignmentWins(assignments: seq<Assignment>, x: string, e: Expr, h: Heap)
    requires EvalAssignments(assignments + [Assignment(x, e)], h).failure.None?
    ensures var before := EvalAssignments(assignments, h);
            var o := Eval(e, before.heap);
            var after := EvalAssignments(assignments + [Assignment(x, e)], h).heap;
            before.failure.None? && o.result.Ok? && x in after && after[x] == o.result.value
  {
    AssignmentsSnoc(assignments, Assignment(x, e), h);
  }

  /**
   * A `Let` returns its body's value, computed in the heap after all
   * assignments, and its bindings are still in the heap afterwards unless the
   * body itself assigns them again.
   */
  lemma LetKeepsBindings(assignments: seq<Assignment>, body: Expr, h: Heap)
    requires EvalAssignments(assignments, h).failure.None?
    ensures var a := EvalAssignments(assignments, h);
            var out := Eval(Let(assignments, body), h);
            && out == Eval(body, a.heap)
            && forall k :: k in a.heap && k !in AssignedNames(body) ==> k in out.heap && out.heap[k] == a.heap[k]
  {
    var a := EvalAssignments(assignments, h);
    EvalWritesOnly(body, a.heap);
  }

  /**
   * `Math` evaluates `left` first and `right` in the heap `left` left behind;
   * it succeeds with the exact sum or product, or fails with `Overflow` when
   * that leaves the i32 range.
   */
  lemma MathOrder(op: Op, left: Expr, right: Expr, h: Heap)
    requires Eval(left, h).result.Ok?
    requires Eval(right, Eval(left, h).heap).result.Ok?
    ensures var l := Eval(left, h);
            var r := Eval(right, l.heap);
            var v := Apply(op, l.result.value as int, r.result.value as int);
            var out := Eval(Math(op, left, right), h);
            && out.heap == r.heap
            && (out.result.Ok? <==> InI32(v))
            && (out.result.Ok? ==> out.result.value as int == v)
            && (out.result.Err? ==> out.result.error == Overflow)
  {
  }

  class Interpreter {
    var heap: Heap

    /** `Interpreter::new`: an empty heap. */
    constructor()
      ensures heap == map[]
    {
      heap := map[];
    }

    /** `Interpreter::evaluate`: walks the tree, updating `heap` in place. */
    method Evaluate(node: Expr) returns (r: Result<i32, EvalError>)
      modifies this
      ensures Outcome(r, heap) == Eval(node, old(heap))
      decreases node
    {
      match node {
        case Let(assignments, body) =>
          for i := 0 to |assignments|
            invariant EvalAssignments(assignments[i..], heap) == EvalAssignments(assignments, old(heap))
          {
            var assignment := assignments[i];
            assert assignments[i..][0] == assignment && assignments[i..][1..] == assignments[i + 1..];
            assert assignment in assignments;
            var value := Evaluate(assignment.expr);
            if value.Err? {
              return value;
            }
            heap := heap[assignment.name := value.value];
          }
          assert assignments[|assignments|..] == [];
          r := Evaluate(body);
        case Math(op, left, right) =>
          var l := Evaluate(left);
          if l.Err? {
            return l;
          }
          var rv := Evaluate(right);
          if rv.Err? {
            return rv;
          }
          var v := Apply(op, l.value as int, rv.value as int);
          if InI32(v) {
            r := Ok(v as i32);
          } else {
            r := Err(Overflow);
          }
        case Var(id) =>
          if id in heap {
            r := Ok(heap[id]);
          } else {
            r := Err(UndefinedVariable(id));
          }
        case Literal(n) =>
          r := Ok(n);
      }
    }
  }

  /** `(let x 2 (mult x (let x 3 y 4 (add x y))))` */
  const PROGRAM_1: Expr :=
    Let([Assignment("x", Literal(2))],
        Math(Mult, Var("x"),
             Let([Assignment("x", Literal(3)), Assignment("y", Literal(4))],
                 Math(Add, Var("x"), Var("y")))))

  /** `(let x 3 x 2 x)`: the trailing `x` is the body, not a third binding. */
  const PROGRAM_2: Expr :=
    Let([Assignment("x", Literal(3)), Assignment("x", Literal(2))], Var("x"))

  /** `(let x 1 y 2 x (add x y) (add x y))` */
  const PROGRAM_3: Expr :=
    Let([Assignment("x", Literal(1)), Assignment("y", Literal(2)),
         Assignment("x", Math(Add, Var("x"), Var("y")))],
        Math(Add, Var("x"), Var("y")))

  /** The three interpreter tests, each from a fresh (empty) heap. */
  lemma ProgramResults()
    ensures Eval(PROGRAM_1, map[]).result == Ok(14)
    ensures Eval(PROGRAM_2, map[]).result == Ok(2)
    ensures Eval(PROGRAM_3, map[]).result == Ok(5)
  {
  }

  /**
   * Bindings outlive their `Let`: the value bound inside the left operand is
   * what the right operand reads, and a nested rebinding of `x` is what the
   * outer scope sees afterwards (4 here, where lexical scoping would give 3).
   */
  lemma DynamicScoping()
    ensures Eval(Math(Add, Let([Assignment("x", Literal(1))], Literal(0)), Var("x")), map[]).result == Ok(1)
    ensures Eval(Let([Assignment("x", Literal(1))],
                     Math(Add, Let([Assignment("x", Literal(2))], Var("x")), Var("x"))), map[]).result == Ok(4)
  {
  }

  /** A variable that no assignment has bound is an error, not a value. */
  lemma UnboundIsError()
    ensures Eval(Math(Add, Literal(1), Var("z")), map["x" := 2]).result == Err(UndefinedVariable("z"))
  {
  }

  /** The interpreter tests, run through `Interpreter::new` and `evaluate`. */
  method RunTests() returns (r1: Result<i32, EvalError>, r2: Result<i32, EvalError>, r3: Result<i32, EvalError>)
    ensures r1 == Ok(14) && r2 == Ok(2) && r3 == Ok(5)
  {
    ProgramResults();
    var i1 := new Interpreter();
    r1 := i1.Evaluate(PROGRAM_1);
    var i2 := new Interpreter();
    r2 := i2.Evaluate(PROGRAM_2);
    var i3 := new Interpreter();
    r3 := i3.Evaluate(PROGRAM_3);
  }

  /** Two fresh interpreters given the same tree agree, and agree with `Eval` from an empty heap. */
  method RunFresh(node: Expr) returns (r1: Result<i32, EvalError>, r2: Result<i32, EvalError>)
    ensures r1 == r2 == Eval(node, map[]).result
  {
    var i1 := new Interpreter();
    r1 := i1.Evaluate(node);
    var i2 := new Interpreter();
    r2 := i2.Evaluate(node);
  }

  /** One interpreter used twice: the second run sees the first run's bindings. */
  method RunShared() returns (first: Result<i32, EvalError>, second: Result<i32, EvalError>)
    ensures first == Ok(0) && second == Ok(1)
  {
    var interp := new Interpreter();
    first := interp.Evaluate(Let([Assignment("x", Literal(1))], Literal(0)));
    second := interp.Evaluate(Var("x"));
  }
}
