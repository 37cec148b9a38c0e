/** Repeating one function, and running a list of steps. */
module Iteration {
  ghost function Iterate<T>(f: T -> T, x: T, n: nat): T
    decreases n
  {
    if n == 0 then x else Iterate(f, f(x), n - 1)
  }

  /** Some number of applications leads from `x` to `y`. */
  ghost predicate Leads<T>(f: T -> T, x: T, y: T) {
    exists n: nat :: Iterate(f, x, n) == y
  }

  lemma {:induction false} IterateAdd<T>(f: T -> T, x: T, a: nat, b: nat)
    ensures Iterate(f, x, a + b) == Iterate(f, Iterate(f, x, a), b)
    decreases a
  {
    if a > 0 {
      IterateAdd(f, f(x), a - 1, b);
    }
  }

  lemma LeadsStep<T>(f: T -> T, x: T)
    ensures Leads(f, x, f(x))
  {
    assert Iterate(f, f(x), 0) == f(x);
    assert Iterate(f, x, 1) == f(x);
  }

  lemma LeadsOn<T>(f: T -> T, x: T, y: T, z: T)
    requires Leads(f, x, y) && Leads(f, y, z)
    ensures Leads(f, x, z)
  {
    var a: nat :| Iterate(f, x, a) == y;
    var b: nat :| Iterate(f, y, b) == z;
    IterateAdd(f, x, a, b);
  }

  lemma {:induction false} IterateKeeps<T(!new)>(f: T -> T, ok: T -> bool, x: T, n: nat)
    requires ok(x) && forall z :: ok(z) ==> ok(f(z))
    ensures ok(Iterate(f, x, n))
    decreases n
  {
    if n > 0 {
      IterateKeeps(f, ok, f(x), n - 1);
    }
  }

  /** What every application keeps holds wherever they lead. */
  lemma LeadsKeeps<T(!new)>(f: T -> T, ok: T -> bool, x: T, y: T)
    requires ok(x) && Leads(f, x, y) && forall z :: ok(z) ==> ok(f(z))
    ensures ok(y)
  {
    var n: nat :| Iterate(f, x, n) == y;
    IterateKeeps(f, ok, x, n);
  }

  // ----- a list of steps -----

  /** The state after the steps. */
  ghost function After<S, E>(act: (S, E) -> S, x: S, steps: seq<E>): S {
    if steps == [] then x else act(After(act, x, steps[..|steps| - 1]), steps[|steps| - 1])
  }

  /** Some list of steps leads from `x` to `y`. */
  ghost predicate Reachable<S, E(!new)>(act: (S, E) -> S, x: S, y: S) {
    exists steps: seq<E> :: After(act, x, steps) == y
  }

  lemma ReachableSelf<S, E(!new)>(act: (S, E) -> S, x: S)
    ensures Reachable(act, x, x)
  {
    assert After(act, x, []) == x;
  }

  lemma ReachableStep<S, E(!new)>(act: (S, E) -> S, x: S, y: S, step: E)
    requires Reachable(act, x, y)
    ensures Reachable(act, x, act(y, step))
  {
    var steps: seq<E> :| After(act, x, steps) == y;
    assert (steps + [step])[..|steps|] == steps;
    assert After(act, x, steps + [step]) == act(y, step);
  }

  lemma {:induction false} AfterConcat<S, E>(act: (S, E) -> S, x: S, a: seq<E>, b: seq<E>)
    ensures After(act, x, a + b) == After(act, After(act, x, a), b)
  {
    if b == [] {
      assert a + b == a;
    } else {
      assert (a + b)[..|a + b| - 1] == a + b[..|b| - 1];
      AfterConcat(act, x, a, b[..|b| - 1]);
    }
  }

  lemma ReachableTrans<S, E(!new)>(act: (S, E) -> S, x: S, y: S, z: S)
    requires Reachable(act, x, y) && Reachable(act, y, z)
    ensures Reachable(act, x, z)
  {
    var a: seq<E> :| After(act, x, a) == y;
    var b: seq<E> :| After(act, y, b) == z;
    AfterConcat(act, x, a, b);
  }

  /** What every step keeps holds after any list of them. */
  lemma {:induction false} AfterKeeps<S(!new), E(!new)>(act: (S, E) -> S, ok: S -> bool, x: S, steps: seq<E>)
    requires ok(x) && forall y, e :: ok(y) ==> ok(act(y, e))
    ensures ok(After(act, x, steps))
  {
    if steps != [] {
      AfterKeeps(act, ok, x, steps[..|steps| - 1]);
    }
  }

  lemma ReachableKeeps<S(!new), E(!new)>(act: (S, E) -> S, ok: S -> bool, x: S, y: S)
    requires ok(x) && Reachable(act, x, y) && forall z, e :: ok(z) ==> ok(act(z, e))
    ensures ok(y)
  {
    var steps: seq<E> :| After(act, x, steps) == y;
    AfterKeeps(act, ok, x, steps);
  }
}
