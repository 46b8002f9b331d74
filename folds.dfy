/** Folds over lists and over lists of functions, as in src/functional/folds.ts.
    JavaScript numbers are modelled as mathematical integers. */
module Folds {

  /** `sum([h, ...t])`: 0 for the empty list, otherwise `h + sum(t)`. */
  function Sum(xs: seq<int>): int {
    if xs == [] then 0 else xs[0] + Sum(xs[1..])
  }

  /** `product([h, ...t])`: 1 for the empty list, otherwise `h * product(t)`. */
  function Product(xs: seq<int>): int {
    if xs == [] then 1 else xs[0] * Product(xs[1..])
  }

  /** `foldr(f, acc, [h, ...t]) = f(h, foldr(f, acc, t))`. */
  function Foldr<A, B>(f: (A, B) -> B, acc: B, xs: seq<A>): B {
    if xs == [] then acc else f(xs[0], Foldr(f, acc, xs[1..]))
  }

  /** `foldl(f, acc, [h, ...t]) = foldl(f, f(h, acc), t)`. */
  function Foldl<A, B>(f: (A, B) -> B, acc: B, xs: seq<A>): B {
    if xs == [] then acc else Foldl(f, f(xs[0], acc), xs[1..])
  }

  function Reverse<A>(xs: seq<A>): (r: seq<A>)
    ensures |r| == |xs|
    ensures forall i :: 0 <= i < |xs| ==> r[i] == xs[|xs| - 1 - i]
  {
    if xs == [] then [] else Reverse(xs[1..]) + [xs[0]]
  }

  lemma {:induction false} FoldrAppend<A, B>(f: (A, B) -> B, acc: B, xs: seq<A>, ys: seq<A>)
    ensures Foldr(f, acc, xs + ys) == Foldr(f, Foldr(f, acc, ys), xs)
  {
    if xs != [] {
      assert (xs + ys)[0] == xs[0];
      assert (xs + ys)[1..] == xs[1..] + ys;
      FoldrAppend(f, acc, xs[1..], ys);
    } else {
      assert xs + ys == ys;
    }
  }

  /** `foldl(f, acc, [x1, ..., xn]) = f(xn, ... f(x1, acc))`: the right fold of the reversed list. */
  lemma {:induction false} FoldlIsFoldrOfReverse<A, B>(f: (A, B) -> B, acc: B, xs: seq<A>)
    ensures Foldl(f, acc, xs) == Foldr(f, acc, Reverse(xs))
  {
    if xs != [] {
      FoldlIsFoldrOfReverse(f, f(xs[0], acc), xs[1..]);
      FoldrAppend(f, acc, Reverse(xs[1..]), [xs[0]]);
      assert Foldr(f, acc, [xs[0]]) == f(xs[0], acc);
    }
  }

  function Add(x: int, acc: int): int { x + acc }
  function Mul(x: int, acc: int): int { x * acc }

  function SumFoldr(xs: seq<int>): int { Foldr(Add, 0, xs) }
  function ProductFoldr(xs: seq<int>): int { Foldr(Mul, 1, xs) }
  function SumFoldl(xs: seq<int>): int { Foldl(Add, 0, xs) }
  function ProductFoldl(xs: seq<int>): int { Foldl(Mul, 1, xs) }

  lemma {:induction false} FoldrAddMul(xs: seq<int>)
    ensures Foldr(Add, 0, xs) == Sum(xs)
    ensures Foldr(Mul, 1, xs) == Product(xs)
  {
    if xs != [] {
      FoldrAddMul(xs[1..]);
    }
  }

  /** `sumFoldr` and `productFoldr` compute `sum` and `product`. */
  lemma FoldrComputesSumAndProduct(xs: seq<int>)
    ensures SumFoldr(xs) == Sum(xs)
    ensures ProductFoldr(xs) == Product(xs)
  {
    FoldrAddMul(xs);
  }

  lemma {:induction false} FoldlAdd(acc: int, xs: seq<int>)
    ensures Foldl(Add, acc, xs) == acc + Sum(xs)
    decreases xs
  {
    if xs != [] {
      FoldlAdd(xs[0] + acc, xs[1..]);
    }
  }

  lemma {:induction false} FoldlMul(acc: int, xs: seq<int>)
    ensures Foldl(Mul, acc, xs) == acc * Product(xs)
    decreases xs
  {
    if xs != [] {
      FoldlMul(xs[0] * acc, xs[1..]);
      MulRotate(xs[0], acc, Product(xs[1..]));
    }
  }

  lemma MulRotate(a: int, b: int, c: int)
    ensures (a * b) * c == b * (a * c)
  {
  }

  /** For `+` and `*` the left fold agrees with `sum` and `product`: `sumFoldl = sum`, `productFoldl = product`. */
  lemma FoldlComputesSumAndProduct(xs: seq<int>)
    ensures SumFoldl(xs) == Sum(xs)
    ensures ProductFoldl(xs) == Product(xs)
  {
    FoldlAdd(0, xs);
    FoldlMul(1, xs);
  }

  // ---------------------------------------------------------------------------
  // compose and pipe

  /** `f1(f2(... fn(x)))`: the functions applied from the last to the first. */
  function ApplyRightToLeft<A>(fns: seq<A -> A>, x: A): A {
    if fns == [] then x else fns[0](ApplyRightToLeft(fns[1..], x))
  }

  /** `fn(... f2(f1(x)))`: the functions applied from the first to the last. */
  function ApplyLeftToRight<A>(fns: seq<A -> A>, x: A): A {
    if fns == [] then x else ApplyLeftToRight(fns[1..], fns[0](x))
  }

  function Identity<A>(x: A): A { x }

  /** The combiner of `compose`: `(fn, acc) => x => fn(acc(x))`. */
  function ComposeStep<A>(fn: A -> A, acc: A -> A): A -> A {
    x => fn(acc(x))
  }

  /** `compose(fns) = foldr((fn, acc) => x => fn(acc(x)), x => x, fns)`. */
  function Compose<A>(fns: seq<A -> A>): A -> A {
    Foldr(ComposeStep, Identity, fns)
  }

  lemma {:induction false} ComposeRun<A>(fns: seq<A -> A>, x: A)
    ensures Foldr(ComposeStep, Identity, fns)(x) == ApplyRightToLeft(fns, x)
  {
    if fns != [] {
      ComposeRun(fns[1..], x);
      var rest := Foldr(ComposeStep, Identity, fns[1..]);
      assert Foldr(ComposeStep, Identity, fns) == ComposeStep(fns[0], rest);
      assert ComposeStep(fns[0], rest)(x) == fns[0](rest(x));
    } else {
      assert Foldr(ComposeStep, Identity, fns) == Identity;
    }
  }

  /** `compose([f1, ..., fn])(x) = f1(f2(... fn(x)))`; `compose([])` is the identity. */
  lemma ComposeAppliesRightToLeft<A>(fns: seq<A -> A>, x: A)
    ensures Compose(fns)(x) == ApplyRightToLeft(fns, x)
    ensures fns == [] ==> Compose(fns)(x) == x
  {
    ComposeRun(fns, x);
  }

  /** The combiner of `pipe` exactly as written: `(fn, acc) => x => acc(fn(x))`. */
  function PipeStep<A>(fn: A -> A, acc: A -> A): A -> A {
    x => acc(fn(x))
  }

  /** `pipe(fns) = foldl((fn, acc) => x => acc(fn(x)), x => x, fns)`, as written. */
  function Pipe<A>(fns: seq<A -> A>): A -> A {
    Foldl(PipeStep, Identity, fns)
  }

  lemma {:induction false} PipeRun<A>(fns: seq<A -> A>, acc: A -> A, x: A)
    ensures Foldl(PipeStep, acc, fns)(x) == acc(ApplyRightToLeft(fns, x))
    decreases fns
  {
    if fns != [] {
      var next := PipeStep(fns[0], acc);
      assert Foldl(PipeStep, acc, fns) == Foldl(PipeStep, next, fns[1..]);
      PipeRun(fns[1..], next, x);
      assert next(ApplyRightToLeft(fns[1..], x)) == acc(fns[0](ApplyRightToLeft(fns[1..], x)));
    }
  }

  /** As written, `pipe([f1, ..., fn])(x) = f1(f2(... fn(x)))`: the same function as `compose`. */
  lemma PipeAsWrittenIsCompose<A>(fns: seq<A -> A>, x: A)
    ensures Pipe(fns)(x) == ApplyRightToLeft(fns, x)
    ensures Pipe(fns)(x) == Compose(fns)(x)
  {
    PipeRun(fns, Identity, x);
    ComposeRun(fns, x);
  }

  /** The combiner that gives `pipe` the meaning its comment states: `(fn, acc) => x => fn(acc(x))`. */
  function PipeIntendedStep<A>(fn: A -> A, acc: A -> A): A -> A {
    x => fn(acc(x))
  }

  /** `pipe` with the accumulated function applied first. */
  function PipeIntended<A>(fns: seq<A -> A>): A -> A {
    Foldl(PipeIntendedStep, Identity, fns)
  }

  lemma {:induction false} PipeIntendedRun<A>(fns: seq<A -> A>, acc: A -> A, x: A)
    ensures Foldl(PipeIntendedStep, acc, fns)(x) == ApplyLeftToRight(fns, acc(x))
    decreases fns
  {
    if fns != [] {
      var next := PipeIntendedStep(fns[0], acc);
      assert Foldl(PipeIntendedStep, acc, fns) == Foldl(PipeIntendedStep, next, fns[1..]);
      PipeIntendedRun(fns[1..], next, x);
      assert next(x) == fns[0](acc(x));
    }
  }

  /** `pipeIntended([f1, ..., fn])(x) = fn(... f2(f1(x)))`. */
  lemma PipeIntendedAppliesLeftToRight<A>(fns: seq<A -> A>, x: A)
    ensures PipeIntended(fns)(x) == ApplyLeftToRight(fns, x)
  {
    PipeIntendedRun(fns, Identity, x);
  }

  function Add1(x: int): int { x + 1 }
  function MultiplyBy5(x: int): int { x * 5 }

  /** With `add1` and `multiplyBy5` the two readings of `pipe` differ at 10: 51 as written, 55 as intended. */
  lemma PipeCounterexample()
    ensures Pipe([Add1, MultiplyBy5])(10) == 51
    ensures PipeIntended([Add1, MultiplyBy5])(10) == 55
  {
    var fns := [Add1, MultiplyBy5];
    PipeAsWrittenIsCompose(fns, 10);
    assert ApplyRightToLeft(fns[1..], 10) == 50;
    PipeIntendedAppliesLeftToRight(fns, 10);
    assert ApplyLeftToRight(fns[1..], 11) == 55;
  }

  // ---------------------------------------------------------------------------
  // map and reduce built from foldl

  /** The combiner of `map`: push `cb(x)` onto the accumulator and return it. */
  function PushMapped<A, B>(cb: A -> B): (A, seq<B>) -> seq<B> {
    (x: A, acc: seq<B>) => acc + [cb(x)]
  }

  /** `map(xs, cb) = foldl((x, acc) => { acc.push(cb(x)); return acc }, [], xs)`. */
  function Map<A, B>(xs: seq<A>, cb: A -> B): seq<B> {
    Foldl(PushMapped(cb), [], xs)
  }

  lemma {:induction false} MapRun<A, B>(xs: seq<A>, cb: A -> B, acc: seq<B>)
    ensures |Foldl(PushMapped(cb), acc, xs)| == |acc| + |xs|
    ensures forall i :: 0 <= i < |acc| ==> Foldl(PushMapped(cb), acc, xs)[i] == acc[i]
    ensures forall i :: 0 <= i < |xs| ==> Foldl(PushMapped(cb), acc, xs)[|acc| + i] == cb(xs[i])
    decreases xs
  {
    if xs != [] {
      var next := acc + [cb(xs[0])];
      assert Foldl(PushMapped(cb), acc, xs) == Foldl(PushMapped(cb), next, xs[1..]);
      MapRun(xs[1..], cb, next);
      var r := Foldl(PushMapped(cb), acc, xs);
      forall i | 0 <= i < |xs|
        ensures r[|acc| + i] == cb(xs[i])
      {
        if i == 0 {
          assert r[|acc|] == next[|acc|];
        } else {
          assert r[|next| + (i - 1)] == cb(xs[1..][i - 1]);
        }
      }
    }
  }

  /** `map(xs, cb)` has the length of `xs` and holds `cb(xs[i])` at index `i`. */
  lemma MapPointwise<A, B>(xs: seq<A>, cb: A -> B)
    ensures |Map(xs, cb)| == |xs|
    ensures forall i :: 0 <= i < |xs| ==> Map(xs, cb)[i] == cb(xs[i])
  {
    MapRun(xs, cb, []);
  }

  /** The combiner of `reduce` exactly as written: `(x, acc) => cb(x, acc)`. */
  function ReduceStep<A>(cb: (A, A) -> A): (A, A) -> A {
    (x: A, acc: A) => cb(x, acc)
  }

  /** `reduce([h, ...t], cb) = foldl((x, acc) => cb(x, acc), h, t)`, as written.
      The source returns `undefined` for an empty list; that case is excluded here. */
  function Reduce<A>(xs: seq<A>, cb: (A, A) -> A): A
    requires xs != []
  {
    Foldl(ReduceStep(cb), xs[0], xs[1..])
  }

  /** The combiner with JavaScript's `reduce` argument order, accumulator first: `cb(acc, x)`. */
  function ReduceIntendedStep<A>(cb: (A, A) -> A): (A, A) -> A {
    (x: A, acc: A) => cb(acc, x)
  }

  /** `reduce` with the callback called as `cb(pre, cur)`, as its parameter names say. */
  function ReduceIntended<A>(xs: seq<A>, cb: (A, A) -> A): A
    requires xs != []
  {
    Foldl(ReduceIntendedStep(cb), xs[0], xs[1..])
  }

  /** `((x1 cb x2) cb x3) ... cb xn`, the left-nested reading of a reduction. */
  function LeftNested<A>(xs: seq<A>, cb: (A, A) -> A): A
    requires xs != []
    decreases |xs|
  {
    if |xs| == 1 then xs[0] else cb(LeftNested(xs[..|xs| - 1], cb), xs[|xs| - 1])
  }

  lemma {:induction false} FoldlSnoc<A, B>(f: (A, B) -> B, acc: B, xs: seq<A>, y: A)
    ensures Foldl(f, acc, xs + [y]) == f(y, Foldl(f, acc, xs))
    decreases xs
  {
    if xs != [] {
      assert (xs + [y])[0] == xs[0];
      assert (xs + [y])[1..] == xs[1..] + [y];
      FoldlSnoc(f, f(xs[0], acc), xs[1..], y);
    } else {
      assert xs + [y] == [y];
    }
  }

  lemma {:induction false} ReduceIntendedRun<A>(acc: A, xs: seq<A>, cb: (A, A) -> A)
    ensures Foldl(ReduceIntendedStep(cb), acc, xs) == LeftNested([acc] + xs, cb)
    decreases |xs|
  {
    if xs != [] {
      var n := |xs|;
      assert xs == xs[..n - 1] + [xs[n - 1]];
      FoldlSnoc(ReduceIntendedStep(cb), acc, xs[..n - 1], xs[n - 1]);
      ReduceIntendedRun(acc, xs[..n - 1], cb);
      var all := [acc] + xs;
      assert all[..|all| - 1] == [acc] + xs[..n - 1];
      assert all[|all| - 1] == xs[n - 1];
    } else {
      assert [acc] + xs == [acc];
    }
  }

  /** The intended `reduce` is the left-nested reduction `((x1 cb x2) cb x3) ...`. */
  lemma ReduceIntendedIsLeftNested<A>(xs: seq<A>, cb: (A, A) -> A)
    requires xs != []
    ensures ReduceIntended(xs, cb) == LeftNested(xs, cb)
  {
    ReduceIntendedRun(xs[0], xs[1..], cb);
    assert [xs[0]] + xs[1..] == xs;
  }

  lemma {:induction false} FoldlSameCombiner<A, B>(f: (A, B) -> B, g: (A, B) -> B, acc: B, xs: seq<A>)
    requires forall x, a :: f(x, a) == g(x, a)
    ensures Foldl(f, acc, xs) == Foldl(g, acc, xs)
    decreases xs
  {
    if xs != [] {
      FoldlSameCombiner(f, g, f(xs[0], acc), xs[1..]);
    }
  }

  /** The callback with its arguments swapped. */
  function Flip<A>(cb: (A, A) -> A): (A, A) -> A {
    (pre: A, cur: A) => cb(cur, pre)
  }

  /** As written, `reduce` hands the current element first: it is the left-nested
      reduction of the flipped callback, `cb(xn, ... cb(x2, x1))`. */
  lemma ReduceAsWrittenFlipsArguments<A>(xs: seq<A>, cb: (A, A) -> A)
    requires xs != []
    ensures Reduce(xs, cb) == LeftNested(xs, Flip(cb))
  {
    FoldlSameCombiner(ReduceStep(cb), ReduceIntendedStep(Flip(cb)), xs[0], xs[1..]);
    ReduceIntendedIsLeftNested(xs, Flip(cb));
  }

  /** For a commutative callback, such as the `+` of the source's example, both readings agree. */
  lemma ReduceCommutative<A>(xs: seq<A>, cb: (A, A) -> A)
    requires xs != []
    requires forall a, b :: cb(a, b) == cb(b, a)
    ensures Reduce(xs, cb) == ReduceIntended(xs, cb)
  {
    FoldlSameCombiner(ReduceStep(cb), ReduceIntendedStep(cb), xs[0], xs[1..]);
  }

  function Subtract(pre: int, cur: int): int { pre - cur }

  /** `reduce([7, 3, 8], +) = 18`; for `-` on `[1, 2]` the code gives 1 where `reduce` gives -1. */
  lemma ReduceExamples()
    ensures Reduce([7, 3, 8], Add) == 18
    ensures Reduce([1, 2], Subtract) == 1
    ensures ReduceIntended([1, 2], Subtract) == -1
  {
    ReduceAsWrittenFlipsArguments([7, 3, 8], Add);
    assert [7, 3, 8][..2] == [7, 3] && [7, 3][..1] == [7];
    assert Flip(Add)(7, 3) == Add(3, 7) == 10;
    assert LeftNested([7, 3], Flip(Add)) == 10;
    assert Flip(Add)(10, 8) == Add(8, 10) == 18;
    ReduceAsWrittenFlipsArguments([1, 2], Subtract);
    assert LeftNested([1, 2], Flip(Subtract)) == Flip(Subtract)(1, 2) == 1;
    ReduceIntendedIsLeftNested([1, 2], Subtract);
    assert [1, 2][..1] == [1];
  }
}
