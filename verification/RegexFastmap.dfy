/**
 re_compile_fastmap of lib/GNUregex.c: which characters can start a match.
 */
module RegexFastmap {
  import opened Basics
  import opened RegexCode
  import opened RegexMachine
  import opened RegexGraph

  // ----- What is known of the places explored so far -----

  ghost predicate Known(code: seq<byte>, done: set<int>, todo: set<int>, nul: bool, y: int) {
    y in done || y in todo || (y == |code| && nul)
  }

  /** The first characters of every run from `x` are in the map, or found at known places. */
  ghost predicate Covered(code: seq<byte>, fm: seq<bool>, done: set<int>, todo: set<int>, nul: bool, x: int) {
    && |fm| == 256 && 0 <= x < |code|
    && match Decode(code, x)
       case Chars(cs, _) => cs != [] && fm[cs[0]]
       case One(_) => forall b: byte :: fm[b]
       case Go(y) => Known(code, done, todo, nul, y)
       case Fork(y, z) => Known(code, done, todo, nul, y) && Known(code, done, todo, nul, z)
       case Bad => false
  }

  ghost predicate Explored(code: seq<byte>, xs: set<int>, ls: set<Span>, fm: seq<bool>, done: set<int>, todo: set<int>, nul: bool) {
    && |fm| == 256 && done <= xs && todo <= xs && Known(code, done, todo, nul, 0)
    && (forall x :: x in done ==> Covered(code, fm, done, todo, nul, x))
    && (forall x, s :: x in done && s in ls && Inside(s, x) ==> s.head + 3 in done)
    && (forall x, s :: x in todo && s in ls && Inside(s, x) ==> s.head + 3 in done || x == s.head + 3)
  }

  ghost predicate MapGrows(fm: seq<bool>, fm': seq<bool>) {
    |fm| == |fm'| && forall b :: 0 <= b < |fm| && fm[b] ==> fm'[b]
  }

  /** One more place explored: its successors are known from now on. */
  lemma Explore(code: seq<byte>, xs: set<int>, ls: set<Span>, fm: seq<bool>, done: set<int>, todo: set<int>, nul: bool,
                x: int, fm': seq<bool>, todo': set<int>, nul': bool)
    requires Explored(code, xs, ls, fm, done, todo, nul) && x in todo && 0 <= x < |code| && Enters(code, xs, ls)
    requires MapGrows(fm, fm') && todo - {x} <= todo' <= xs && (nul ==> nul')
    requires forall y :: y in todo' && y !in todo ==> Steps(code, x, y)
    requires Covered(code, fm', done + {x}, todo', nul', x)
    ensures Explored(code, xs, ls, fm', done + {x}, todo', nul')
  {
    forall z | z in done ensures Covered(code, fm', done + {x}, todo', nul', z) {
      assert Covered(code, fm, done, todo, nul, z);
      CoveredMore(code, fm, done, todo, nul, z, fm', done + {x}, todo', nul');
    }
  }

  lemma CoveredMore(code: seq<byte>, fm: seq<bool>, done: set<int>, todo: set<int>, nul: bool, z: int,
                    fm': seq<bool>, done': set<int>, todo': set<int>, nul': bool)
    requires Covered(code, fm, done, todo, nul, z) && MapGrows(fm, fm')
    requires done + todo <= done' + todo' && (nul ==> nul')
    ensures Covered(code, fm', done', todo', nul', z)
  {
    assert forall y :: y in done + todo ==> y in done' + todo';
  }

  /** The backward jump of a loop: its on_failure_jump needs no second visit, because the body
      has been entered already. */
  lemma ExploreBack(code: seq<byte>, xs: set<int>, ls: set<Span>, fm: seq<bool>, done: set<int>, todo: set<int>, nul: bool,
                    h: int, x: int, todo': set<int>, nul': bool)
    requires Explored(code, xs, ls, fm, done, todo, nul) && x in todo && 0 <= x < |code| && Enters(code, xs, ls)
    requires Decode(code, x) == Go(h) && LoopBack(code, xs, ls, h, x)
    requires todo - {x} <= todo' <= xs && todo' <= todo + {x + 3} && (nul ==> nul')
    requires Known(code, done + {x, h}, todo', nul', x + 3)
    ensures Explored(code, xs, ls, fm, done + {x, h}, todo', nul')
  {
    BackInside(code, xs, ls, done, todo, h, x);
    var done' := done + {x, h};
    assert Covered(code, fm, done', todo', nul', x) && Covered(code, fm, done', todo', nul', h);
    forall z | z in done ensures Covered(code, fm, done', todo', nul', z) {
      CoveredMore(code, fm, done, todo, nul, z, fm, done', todo', nul');
    }
    hide Covered, Inside, Decode, LoopBack, Enters;
  }

  ghost predicate BodiesEntered(ls: set<Span>, done: set<int>, x: int) {
    forall s :: s in ls && Inside(s, x) ==> s.head + 3 in done
  }

  /** Around the backward jump every enclosing loop has been entered. */
  lemma BackInside(code: seq<byte>, xs: set<int>, ls: set<Span>, done: set<int>, todo: set<int>, h: int, x: int)
    requires Enters(code, xs, ls) && x in xs && 0 <= x < |code| && Decode(code, x) == Go(h) && LoopBack(code, xs, ls, h, x)
    requires forall s :: s in ls && Inside(s, x) ==> s.head + 3 in done || x == s.head + 3
    ensures BodiesEntered(ls, done + {x, h}, x) && BodiesEntered(ls, done + {x, h}, h) && h + 3 in done + {x, h}
    ensures forall s :: s in ls && Inside(s, x + 3) ==> s.head + 3 in done + {x, h} || x + 3 == s.head + 3
  {
    assert Inside(Span(h, x), x);
    assert Steps(code, x, h) && Steps(code, h, x + 3);
    forall s | s in ls && Inside(s, h) ensures Inside(s, x) {
    }
    forall s | s in ls && Inside(s, x + 3) && x + 3 != s.head + 3 ensures Inside(s, h) {
      assert h in xs;
    }
  }

  /** When nothing is left to explore, the map is right about every accepting run. */
  lemma {:induction false} MapSound(code: seq<byte>, fm: seq<bool>, done: set<int>, nul: bool, x: int, w: seq<byte>, n: nat)
    requires |fm| == 256 && Known(code, done, {}, nul, x) && Accepts(code, w, x, 0, n)
    requires forall z :: z in done ==> Covered(code, fm, done, {}, nul, z)
    ensures nul || (w != [] && fm[w[0]])
    decreases n
  {
    if x in done {
      assert Covered(code, fm, done, {}, nul, x);
      match Decode(code, x)
      case Chars(cs, _) => assert w[0..|cs|][0] == w[0];
      case One(_) =>
      case Go(y) => MapSound(code, fm, done, nul, y, w, n - 1);
      case Fork(y, z) =>
        if Accepts(code, w, y, 0, n - 1) {
          MapSound(code, fm, done, nul, y, w, n - 1);
        } else {
          MapSound(code, fm, done, nul, z, w, n - 1);
        }
      case Bad => assert false;
    }
  }

  // ----- Nothing too much is in the map -----

  /** Whatever a run from `x` accepts, the code accepts. */
  ghost predicate Leads(code: seq<byte>, x: int) {
    forall w, n: nat :: Accepts(code, w, x, 0, n) ==> Language(code, w)
  }

  ghost predicate Starts(code: seq<byte>, b: byte) {
    exists w :: Language(code, [b] + w)
  }

  /** Every character in the map starts a string that is accepted; the null character, which
      no `.` matches, is not counted. */
  ghost predicate Honest(code: seq<byte>, fm: seq<bool>) {
    |fm| == 256 && forall b: byte :: fm[b] && b != 0 ==> Starts(code, b)
  }

  ghost predicate Reached(code: seq<byte>, fm: seq<bool>, p: int, path: bool, stack: seq<int>, nul: bool) {
    && Honest(code, fm) && (path ==> Leads(code, p)) && (forall q :: q in stack ==> Leads(code, q))
    && (nul ==> Leads(code, |code|))
  }

  lemma LeadsStep(code: seq<byte>, x: int, y: int)
    requires 0 <= x < |code| && Leads(code, x) && Steps(code, x, y)
    ensures Leads(code, y)
  {
    forall w, n: nat | Accepts(code, w, y, 0, n) ensures Language(code, w) {
      assert Accepts(code, w, x, 0, n + 1);
    }
  }

  lemma {:induction false} AcceptsAfter(code: seq<byte>, front: seq<byte>, w: seq<byte>, x: int, i: nat, n: nat)
    requires Accepts(code, w, x, i, n)
    ensures Accepts(code, front + w, x, |front| + i, n)
    decreases n
  {
    if x != |code| {
      match Decode(code, x)
      case Chars(cs, next) =>
        assert (front + w)[|front| + i..|front| + i + |cs|] == w[i..i + |cs|];
        AcceptsAfter(code, front, w, next, i + |cs|, n - 1);
      case One(next) => AcceptsAfter(code, front, w, next, i + 1, n - 1);
      case Go(next) => AcceptsAfter(code, front, w, next, i, n - 1);
      case Fork(next, other) =>
        if Accepts(code, w, next, i, n - 1) {
          AcceptsAfter(code, front, w, next, i, n - 1);
        } else {
          AcceptsAfter(code, front, w, other, i, n - 1);
        }
    }
  }

  /** From every place some string leads to the end. */
  lemma {:induction false} Live(code: seq<byte>, xs: set<int>, ls: set<Span>, x: int) returns (w: seq<byte>, n: nat)
    requires AllGood(code, xs, ls, |code|, xs) && (x in xs || x == |code|)
    ensures Accepts(code, w, x, 0, n)
    decreases |code| - x
  {
    if x == |code| {
      return [], 0;
    }
    assert Good(code, xs, ls, |code|, x);
    match Decode(code, x)
    case Chars(cs, next) =>
      w, n := Live(code, xs, ls, next);
      AcceptsAfter(code, cs, w, next, 0, n);
      assert (cs + w)[0..|cs|] == cs;
      w, n := cs + w, n + 1;
    case One(next) =>
      w, n := Live(code, xs, ls, next);
      AcceptsAfter(code, [1], w, next, 0, n);
      w, n := [1] + w, n + 1;
    case Go(next) =>
      if code[x] == MAYBE_POP_JUMP {
        assert Good(code, xs, ls, |code|, next) && Steps(code, next, x + 3);
        w, n := Live(code, xs, ls, x + 3);
        assert Accepts(code, w, next, 0, n + 1);
        n := n + 2;
      } else {
        assert Steps(code, x, next);
        w, n := Live(code, xs, ls, next);
        n := n + 1;
      }
    case Fork(next, _) =>
      assert Steps(code, x, next);
      w, n := Live(code, xs, ls, next);
      n := n + 1;
  }

  lemma StartsChars(code: seq<byte>, xs: set<int>, ls: set<Span>, x: int)
    requires AllGood(code, xs, ls, |code|, xs) && x in xs && Leads(code, x) && Decode(code, x).Chars?
    ensures Starts(code, Decode(code, x).chars[0])
  {
    assert Good(code, xs, ls, |code|, x);
    var Chars(cs, next) := Decode(code, x);
    var w, n := Live(code, xs, ls, next);
    AcceptsAfter(code, cs, w, next, 0, n);
    assert (cs + w)[0..|cs|] == cs;
    assert Accepts(code, cs + w, x, 0, n + 1);
    assert cs + w == [cs[0]] + (cs[1..] + w);
  }

  lemma StartsOne(code: seq<byte>, xs: set<int>, ls: set<Span>, x: int, b: byte)
    requires AllGood(code, xs, ls, |code|, xs) && x in xs && Leads(code, x) && Decode(code, x).One? && b != 0
    ensures Starts(code, b)
  {
    assert Good(code, xs, ls, |code|, x);
    var next := Decode(code, x).next;
    var w, n := Live(code, xs, ls, next);
    AcceptsAfter(code, [b], w, next, 0, n);
    assert Accepts(code, [b] + w, x, 0, n + 1);
  }

  // ----- Termination -----

  /** A place nearer to the start outweighs any two places after it. */
  function Weight(n: int, p: int): nat
    decreases n - p
  {
    if p >= n then 1 else 2 * Weight(n, p + 1)
  }

  function Weights(n: int, ps: seq<int>): nat {
    if ps == [] then 0 else Weight(n, ps[|ps| - 1]) + Weights(n, ps[..|ps| - 1])
  }

  lemma {:induction false} WeightLess(n: int, p: int, q: int)
    requires p < q <= n
    ensures 0 < Weight(n, q) < Weight(n, p)
    decreases q - p
  {
    WeightPositive(n, q);
    if q != p + 1 {
      WeightLess(n, p + 1, q);
    }
  }

  lemma {:induction false} WeightPositive(n: int, p: int)
    ensures Weight(n, p) > 0
    decreases n - p
  {
    if p < n {
      WeightPositive(n, p + 1);
    }
  }

  lemma WeightsPush(n: int, ps: seq<int>, p: int)
    ensures Weights(n, ps + [p]) == Weight(n, p) + Weights(n, ps)
  {
    assert (ps + [p])[..|ps|] == ps;
  }

  lemma WeightFork(n: int, p: int, q: int, r: int)
    requires p + 1 < q <= n && p < r <= n
    ensures Weight(n, q) + Weight(n, r) < Weight(n, p)
  {
    WeightLess(n, p + 1, q);
    if r != p + 1 {
      WeightLess(n, p + 1, r);
    }
  }

  // ----- The worklist -----

  /** What the search uses of the code. */
  ghost predicate Graph(code: seq<byte>, xs: set<int>, ls: set<Span>, open: bool) {
    && AllGood(code, xs, ls, |code|, xs) && Enters(code, xs, ls) && ZeroJumps(code, xs, |code|, open)
    && (forall x :: x in xs ==> 0 <= x < |code|) && (|code| > 0 ==> 0 in xs) && (forall s :: s in ls ==> s.head >= 0)
  }

  lemma CodeGraph(c: Code)
    requires Wf(c) && |Bytes(c)| < SMALL
    ensures Graph(Bytes(c), Instrs(c, 0), Loops(c, 0), LastEmpty(c))
  {
    hide *;
    HoldsWhole(Bytes(c));
    SizeIs(c);
    CodeGood(Bytes(c), c, 0);
    CodeEnters(Bytes(c), c, 0);
    CodeZero(Bytes(c), c, 0);
    CodeExtent(c, 0);
    MakeGraph(Bytes(c), Instrs(c, 0), Loops(c, 0), LastEmpty(c));
  }

  lemma MakeGraph(code: seq<byte>, xs: set<int>, ls: set<Span>, open: bool)
    requires AllGood(code, xs, ls, |code|, xs) && Enters(code, xs, ls) && ZeroJumps(code, xs, |code|, open) && Extent(xs, ls, 0, |code|)
    ensures Graph(code, xs, ls, open)
  {
  }

  /** The places still to be explored. */
  function Todo(n: int, p: int, path: bool, stack: seq<int>): set<int> {
    (set q | q in stack) + if path && p < n then {p} else {}
  }

  ghost predicate Going(code: seq<byte>, xs: set<int>, ls: set<Span>, fm: seq<bool>, done: set<int>,
                        p: int, path: bool, stack: seq<int>, nul: bool) {
    && 0 <= p <= |code| && (!path ==> p == |code|) && (forall q :: q in stack ==> 0 <= q < |code|)
    && Explored(code, xs, ls, fm, done, Todo(|code|, p, path, stack), nul || (path && p == |code|))
  }

  lemma Begin(code: seq<byte>, xs: set<int>, ls: set<Span>, open: bool, fm: seq<bool>)
    requires Graph(code, xs, ls, open) && |fm| == 256
    ensures Going(code, xs, ls, fm, {}, 0, true, [], false)
  {
  }

  /** Back to the top of the loop: the next place comes off the stack. */
  lemma PopNext(code: seq<byte>, xs: set<int>, ls: set<Span>, fm: seq<bool>, done: set<int>, path: bool, stack: seq<int>, nul: bool)
    requires Going(code, xs, ls, fm, done, |code|, path, stack, nul) && stack != []
    ensures Going(code, xs, ls, fm, done, stack[|stack| - 1], true, stack[..|stack| - 1], nul || path)
    ensures 0 <= stack[|stack| - 1] < |code|
  {
    hide Explored;
    var q, rest := stack[|stack| - 1], stack[..|stack| - 1];
    assert stack == rest + [q] && q in stack;
    forall r | r in rest ensures r in stack {
    }
    assert Todo(|code|, q, true, rest) == Todo(|code|, |code|, path, stack);
    assert (nul || path) == (nul || (path && |code| == |code|));
  }

  /** A place whose characters are now in the map: the path ends here. */
  lemma EndPath(code: seq<byte>, xs: set<int>, ls: set<Span>, open: bool, fm: seq<bool>, done: set<int>,
                p: int, stack: seq<int>, nul: bool, fm': seq<bool>)
    requires Graph(code, xs, ls, open) && Going(code, xs, ls, fm, done, p, true, stack, nul) && p < |code|
    requires MapGrows(fm, fm') && Covered(code, fm', {}, {}, false, p)
    ensures Going(code, xs, ls, fm', done + {p}, |code|, false, stack, nul)
  {
    var todo, todo' := Todo(|code|, p, true, stack), Todo(|code|, |code|, false, stack);
    CoveredMore(code, fm', {}, {}, false, p, fm', done + {p}, todo', nul);
    Explore(code, xs, ls, fm, done, todo, nul, p, fm', todo', nul);
  }

  /** A place that goes on to `next`. */
  lemma GoOn(code: seq<byte>, xs: set<int>, ls: set<Span>, open: bool, fm: seq<bool>, done: set<int>,
             p: int, stack: seq<int>, nul: bool, next: int)
    requires Graph(code, xs, ls, open) && Going(code, xs, ls, fm, done, p, true, stack, nul) && p < |code|
    requires Decode(code, p) == Go(next) && (next in xs || next == |code|)
    ensures Going(code, xs, ls, fm, done + {p}, next, true, stack, nul)
  {
    var todo, todo' := Todo(|code|, p, true, stack), Todo(|code|, next, true, stack);
    Explore(code, xs, ls, fm, done, todo, nul, p, fm, todo', nul || next == |code|);
  }

  /** A choice: one way is taken, the other remembered, or it is the end and the whole can
      match nothing. */
  lemma GoBoth(code: seq<byte>, xs: set<int>, ls: set<Span>, open: bool, fm: seq<bool>, done: set<int>,
               p: int, stack: seq<int>, nul: bool, next: int, other: int)
    requires Graph(code, xs, ls, open) && Going(code, xs, ls, fm, done, p, true, stack, nul) && p < |code|
    requires Decode(code, p) == Fork(next, other) && (next in xs || next == |code|) && (other in xs || other == |code|)
    ensures other < |code| ==> Going(code, xs, ls, fm, done + {p}, next, true, stack + [other], nul)
    ensures other == |code| ==> Going(code, xs, ls, fm, done + {p}, next, true, stack, true)
  {
    var todo := Todo(|code|, p, true, stack);
    if other < |code| {
      var todo' := Todo(|code|, next, true, stack + [other]);
      assert forall q :: q in stack + [other] <==> q in stack || q == other;
      Explore(code, xs, ls, fm, done, todo, nul, p, fm, todo', nul || next == |code|);
    } else {
      var todo' := Todo(|code|, next, true, stack);
      Explore(code, xs, ls, fm, done, todo, nul, p, fm, todo', true);
    }
  }

  /** The backward jump of a loop goes on after the loop; the stack may lose that same place. */
  lemma GoPast(code: seq<byte>, xs: set<int>, ls: set<Span>, open: bool, fm: seq<bool>, done: set<int>,
               p: int, stack: seq<int>, nul: bool, h: int, stack': seq<int>)
    requires Graph(code, xs, ls, open) && Going(code, xs, ls, fm, done, p, true, stack, nul) && p < |code|
    requires Decode(code, p) == Go(h) && LoopBack(code, xs, ls, h, p) && (p + 3 in xs || p + 3 == |code|)
    requires stack' == stack || (stack != [] && stack[|stack| - 1] == p + 3 && stack' == stack[..|stack| - 1])
    ensures Going(code, xs, ls, fm, done + {p, h}, p + 3, true, stack', nul)
  {
    var todo, todo' := Todo(|code|, p, true, stack), Todo(|code|, p + 3, true, stack');
    if stack' != stack {
      assert stack == stack' + [p + 3] && p + 3 in stack;
      assert forall q :: q in stack <==> q in stack' || q == p + 3;
    }
    ExploreBack(code, xs, ls, fm, done, todo, nul, h, p, todo', nul || p + 3 == |code|);
  }

  /** The instruction at a place of the search: what it is and where it leads. */
  lemma PlaceFacts(code: seq<byte>, xs: set<int>, ls: set<Span>, open: bool, fm: seq<bool>, done: set<int>, p: int, stack: seq<int>, nul: bool)
    requires Graph(code, xs, ls, open) && Going(code, xs, ls, fm, done, p, true, stack, nul) && p < |code|
    ensures |fm| == 256 && p >= 0 && p in xs && AllGood(code, xs, ls, |code|, xs)
    ensures Decode(code, p) != Bad && (Decode(code, p).Chars? ==> Decode(code, p).chars != [])
    ensures code[p] == JUMP_PAST_ALT && Decode(code, p) == Go(p + 3) ==>
              (p + 3 < |code| && code[p + 3] == PUSH_DUMMY_FAILURE) || (open && p + 3 == |code|)
    ensures Decode(code, p).Go? ==> Place(code, xs, Decode(code, p).next)
    ensures Decode(code, p).Go? && code[p] != MAYBE_POP_JUMP ==> Decode(code, p).next > p
    ensures code[p] == DUMMY_FAILURE_JUMP ==> Decode(code, p) == Go(p + 6)
    ensures code[p] == JUMP_PAST_ALT ==> Decode(code, p).Go? && Decode(code, p).next >= p + 3
    ensures Decode(code, p).Fork? ==>
              && Place(code, xs, Decode(code, p).next) && Decode(code, p).next > p
              && Place(code, xs, Decode(code, p).other) && Decode(code, p).other > p
    ensures code[p] == MAYBE_POP_JUMP ==>
              && Decode(code, p).Go? && LoopBack(code, xs, ls, Decode(code, p).next, p) && Place(code, xs, p + 3)
  {
    assert p in Todo(|code|, p, true, stack);
    assert p in xs && Good(code, xs, ls, |code|, p);
    match Decode(code, p)
    case Go(y) =>
      assert Steps(code, p, y);
      if code[p] == MAYBE_POP_JUMP {
        assert Good(code, xs, ls, |code|, y);
        assert Steps(code, y, p + 3);
      }
    case Fork(y, z) => assert Steps(code, p, y) && Steps(code, p, z);
    case _ =>
  }

  ghost predicate Place(code: seq<byte>, xs: set<int>, y: int) {
    0 <= y <= |code| && (y in xs || y == |code|)
  }

  lemma CoveredChars(code: seq<byte>, fm: seq<bool>, p: int)
    requires 0 <= p < |code| && Decode(code, p).Chars? && Decode(code, p).chars != [] && |fm| == 256
    requires p + 2 < |code| && fm[code[p + 2]]
    ensures Covered(code, fm, {}, {}, false, p)
  {
  }

  lemma CoveredOne(code: seq<byte>, fm: seq<bool>, p: int)
    requires 0 <= p < |code| && Decode(code, p).One? && |fm| == 256 && forall j :: 0 <= j < 256 ==> fm[j]
    ensures Covered(code, fm, {}, {}, false, p)
  {
  }

  // ----- Every place of the search is reached -----

  lemma ReachedStart(code: seq<byte>, fm: seq<bool>)
    requires |fm| == 256 && forall j :: 0 <= j < 256 ==> !fm[j]
    ensures Reached(code, fm, 0, true, [], false)
  {
  }

  lemma ReachedPop(code: seq<byte>, fm: seq<bool>, path: bool, stack: seq<int>, nul: bool)
    requires Reached(code, fm, |code|, path, stack, nul) && stack != []
    ensures Reached(code, fm, stack[|stack| - 1], true, stack[..|stack| - 1], nul || path)
  {
    hide Leads, Honest;
    assert stack[|stack| - 1] in stack && forall q :: q in stack[..|stack| - 1] ==> q in stack;
  }

  lemma ReachedGo(code: seq<byte>, fm: seq<bool>, p: int, stack: seq<int>, nul: bool, next: int)
    requires Reached(code, fm, p, true, stack, nul) && 0 <= p < |code| && Decode(code, p) == Go(next)
    ensures Reached(code, fm, next, true, stack, nul)
  {
    assert Steps(code, p, next);
    hide Leads, Honest, Steps;
    LeadsStep(code, p, next);
  }

  lemma ReachedFork(code: seq<byte>, fm: seq<bool>, p: int, stack: seq<int>, nul: bool, next: int, other: int)
    requires Reached(code, fm, p, true, stack, nul) && 0 <= p < |code| && Decode(code, p) == Fork(next, other)
    ensures Reached(code, fm, next, true, stack + [other], nul)
    ensures other == |code| ==> Reached(code, fm, next, true, stack, true)
  {
    assert Steps(code, p, next) && Steps(code, p, other);
    hide Leads, Honest, Steps;
    LeadsStep(code, p, next);
    LeadsStep(code, p, other);
    assert forall q :: q in stack + [other] <==> q in stack || q == other;
  }

  /** Around the loop and out of it. */
  lemma ReachedPast(code: seq<byte>, fm: seq<bool>, p: int, stack: seq<int>, nul: bool, h: int, stack': seq<int>)
    requires Reached(code, fm, p, true, stack, nul) && 0 <= p < |code| && Decode(code, p) == Go(h)
    requires 0 <= h < |code| && Decode(code, h) == Fork(h + 3, p + 3)
    requires stack' == stack || (stack != [] && stack' == stack[..|stack| - 1])
    ensures Reached(code, fm, p + 3, true, stack', nul)
  {
    assert Steps(code, p, h) && Steps(code, h, p + 3);
    hide Leads, Honest, Steps;
    LeadsStep(code, p, h);
    LeadsStep(code, h, p + 3);
    assert forall q :: q in stack' ==> q in stack;
  }

  /** The characters of a place go into the map. */
  lemma ReachedChars(code: seq<byte>, xs: set<int>, ls: set<Span>, fm: seq<bool>, p: int, stack: seq<int>, nul: bool, fm': seq<bool>)
    requires Reached(code, fm, p, true, stack, nul) && AllGood(code, xs, ls, |code|, xs) && p in xs && Decode(code, p).Chars?
    requires Decode(code, p).chars != [] && fm' == fm[Decode(code, p).chars[0] := true]
    ensures Reached(code, fm', |code|, false, stack, nul)
  {
    hide Leads, Starts, Good;
    StartsChars(code, xs, ls, p);
  }

  lemma ReachedOne(code: seq<byte>, xs: set<int>, ls: set<Span>, fm: seq<bool>, p: int, stack: seq<int>, nul: bool, fm': seq<bool>)
    requires Reached(code, fm, p, true, stack, nul) && AllGood(code, xs, ls, |code|, xs) && p in xs && Decode(code, p).One? && |fm'| == 256
    ensures Reached(code, fm', |code|, false, stack, nul)
  {
    hide Leads, Starts, Good;
    forall b: byte | b != 0 ensures Starts(code, b) {
      StartsOne(code, xs, ls, p, b);
    }
  }

  lemma ReachedEnd(code: seq<byte>, fm: seq<bool>, path: bool, stack: seq<int>, nul: bool)
    requires Reached(code, fm, |code|, path, stack, nul)
    ensures Honest(code, fm) && (nul || path ==> Language(code, []))
  {
    assert Accepts(code, [], |code|, 0, 0);
  }

  // ----- re_compile_fastmap -----

  /**
   can_be_null says exactly whether the empty string is accepted, in which case the map is not
   to be used.  Otherwise every accepted string starts with a character in the map; and every
   character in the map but null starts an accepted string.  `beyond` is the byte after the code, which is looked at when the
   code ends in a jump of length zero.
   */
  method CompileFastmap(code: seq<byte>, fastmap: array<bool>, beyond: byte, ghost c: Code) returns (canBeNull: bool)
    requires Wf(c) && code == Bytes(c) && |code| < SMALL && fastmap.Length == 256
    requires LastEmpty(c) ==> beyond != ON_FAILURE_JUMP && beyond != SUCCEED_N
    modifies fastmap
    ensures canBeNull <==> Language(code, [])
    ensures forall w :: Language(code, w) ==> canBeNull || (w != [] && fastmap[w[0]])
    ensures forall b: byte :: fastmap[b] && b != 0 ==> exists w :: Language(code, [b] + w)
  {
    hide Language;
    CodeGraph(c);
    ghost var xs, ls, open := Instrs(c, 0), Loops(c, 0), LastEmpty(c);
    canBeNull := Search(code, fastmap, beyond, xs, ls, open);
    forall b: byte | fastmap[b] && b != 0 ensures exists w :: Language(code, [b] + w) {
      assert fastmap[..][b] && Starts(code, b);
    }
  }

  method Search(code: seq<byte>, fastmap: array<bool>, beyond: byte, ghost xs: set<int>, ghost ls: set<Span>, ghost open: bool)
    returns (canBeNull: bool)
    requires Graph(code, xs, ls, open) && fastmap.Length == 256
    requires open ==> beyond != ON_FAILURE_JUMP && beyond != SUCCEED_N
    modifies fastmap
    ensures forall w :: Language(code, w) ==> canBeNull || (w != [] && fastmap[w[0]])
    ensures Honest(code, fastmap[..]) && (canBeNull ==> Language(code, []))
  {
    hide *;
    var n := |code|;
    SetAll(fastmap, false);
    canBeNull := false;
    var p, path, stack := 0, true, [];
    ghost var done := {};
    Begin(code, xs, ls, open, fastmap[..]);
    ReachedStart(code, fastmap[..]);
    while p != n || stack != []
      invariant Going(code, xs, ls, fastmap[..], done, p, path, stack, canBeNull)
      invariant Reached(code, fastmap[..], p, path, stack, canBeNull)
      decreases Weights(n, stack) + Weight(n, p)
    {
      ghost var before := Weights(n, stack) + Weight(n, p);
      GoingFacts(code, xs, ls, fastmap[..], done, p, path, stack, canBeNull);
      if p == n {
        PopNext(code, xs, ls, fastmap[..], done, path, stack, canBeNull);
        PopWeight(n, stack);
        ReachedPop(code, fastmap[..], path, stack, canBeNull);
        canBeNull := canBeNull || path;
        path := true;
        p, stack := stack[|stack| - 1], stack[..|stack| - 1];
      }
      var full;
      full, p, path, stack, canBeNull, done := Visit(code, fastmap, beyond, p, stack, canBeNull, done, xs, ls, open);
      if full {
        ReachedEnd(code, fastmap[..], path, stack, canBeNull);
        return;
      }
    }
    MapDone(code, xs, ls, fastmap[..], done, path, canBeNull, canBeNull || path);
    ReachedEnd(code, fastmap[..], path, stack, canBeNull);
    canBeNull := canBeNull || path;
  }

  /** One turn of the search at an instruction.  `full` is the early return at a `.` when the
      map is of no use any more. */
  method Visit(code: seq<byte>, fastmap: array<bool>, beyond: byte, at: int, pushed: seq<int>, null0: bool,
               ghost done0: set<int>, ghost xs: set<int>, ghost ls: set<Span>, ghost open: bool)
    returns (full: bool, p: int, path: bool, stack: seq<int>, canBeNull: bool, ghost done: set<int>)
    requires Graph(code, xs, ls, open) && fastmap.Length == 256 && 0 <= at < |code|
    requires Going(code, xs, ls, fastmap[..], done0, at, true, pushed, null0) && Reached(code, fastmap[..], at, true, pushed, null0)
    requires open ==> beyond != ON_FAILURE_JUMP && beyond != SUCCEED_N
    modifies fastmap
    ensures full ==> canBeNull && p == |code|
    ensures Reached(code, fastmap[..], p, path, stack, canBeNull)
    ensures !full ==> Going(code, xs, ls, fastmap[..], done, p, path, stack, canBeNull)
    ensures !full ==> Weights(|code|, stack) + Weight(|code|, p) < Weights(|code|, pushed) + Weight(|code|, at)
  {
    hide Graph, Going, Weight, Weights, Covered, Steps, Good, Reached;
    var n := |code|;
    full, path, stack, canBeNull, done := false, true, pushed, null0, done0 + {at};
    ghost var fm := fastmap[..];
    PlaceFacts(code, xs, ls, open, fm, done0, at, pushed, null0);
    var op := code[at];
    if op == EXACTN {
      fastmap[code[at + 2]] := true;
      CoveredChars(code, fastmap[..], at);
      EndPath(code, xs, ls, open, fm, done0, at, pushed, null0, fastmap[..]);
      ReachedChars(code, xs, ls, fm, at, pushed, null0, fastmap[..]);
      WeightLess(n, at, n);
      p, path := n, false;
    } else if op == ANYCHAR {
      SetAll(fastmap, true);
      ReachedOne(code, xs, ls, fm, at, pushed, null0, fastmap[..]);
      if canBeNull {
        return true, n, false, stack, canBeNull, done;
      }
      CoveredOne(code, fastmap[..], at);
      EndPath(code, xs, ls, open, fm, done0, at, pushed, null0, fastmap[..]);
      WeightLess(n, at, n);
      p, path := n, false;
    } else if op == PUSH_DUMMY_FAILURE || op == START_MEMORY || op == STOP_MEMORY {
      p := if op == PUSH_DUMMY_FAILURE then at + 1 else at + 3;
      GoOn(code, xs, ls, open, fm, done0, at, pushed, null0, p);
      ReachedGo(code, fm, at, pushed, null0, p);
      WeightLess(n, at, p);
    } else if op == ON_FAILURE_JUMP {
      var other := at + 3 + Extract(code[at + 1], code[at + 2]);
      p := at + 3;
      GoBoth(code, xs, ls, open, fm, done0, at, pushed, null0, p, other);
      ReachedFork(code, fm, at, pushed, null0, p, other);
      if other < n {
        stack := stack + [other];
        WeightsPush(n, pushed, other);
        WeightFork(n, at, p, other);
      } else {
        canBeNull := true;
        WeightLess(n, at, p);
      }
    } else if op == JUMP_PAST_ALT || op == MAYBE_POP_JUMP || op == DUMMY_FAILURE_JUMP {
      p, stack, done := FollowJump(code, beyond, at, pushed, null0, done0, fm, xs, ls, open);
    } else {
      assert false;
    }
  }

  /** The jump opcodes. */
  method FollowJump(code: seq<byte>, beyond: byte, at: int, pushed: seq<int>, ghost null0: bool,
                    ghost done0: set<int>, ghost fm: seq<bool>, ghost xs: set<int>, ghost ls: set<Span>, ghost open: bool)
    returns (p: int, stack: seq<int>, ghost done: set<int>)
    requires Graph(code, xs, ls, open) && 0 <= at < |code| && Going(code, xs, ls, fm, done0, at, true, pushed, null0)
    requires Reached(code, fm, at, true, pushed, null0)
    requires code[at] == JUMP_PAST_ALT || code[at] == MAYBE_POP_JUMP || code[at] == DUMMY_FAILURE_JUMP
    requires open ==> beyond != ON_FAILURE_JUMP && beyond != SUCCEED_N
    ensures Going(code, xs, ls, fm, done, p, true, stack, null0) && Reached(code, fm, p, true, stack, null0)
    ensures Weights(|code|, stack) + Weight(|code|, p) < Weights(|code|, pushed) + Weight(|code|, at)
  {
    hide Graph, Going, Weight, Weights, Covered, Reached, LoopBack;
    var n := |code|;
    PlaceFacts(code, xs, ls, open, fm, done0, at, pushed, null0);
    var j := Extract(code[at + 1], code[at + 2]);
    p, stack, done := at + 3 + j, pushed, done0 + {at};
    if j > 0 {
      GoOn(code, xs, ls, open, fm, done0, at, pushed, null0, p);
      ReachedGo(code, fm, at, pushed, null0, p);
      WeightLess(n, at, p);
      return;
    }
    var target := if p == n then beyond else code[p];
    if target != ON_FAILURE_JUMP && target != SUCCEED_N {
      GoOn(code, xs, ls, open, fm, done0, at, pushed, null0, p);
      ReachedGo(code, fm, at, pushed, null0, p);
      WeightLess(n, at, p);
      return;
    }
    ghost var h := p;
    p := p + 3 + Extract(code[p + 1], code[p + 2]);
    if stack != [] && stack[|stack| - 1] == p {
      PopWeight(n, stack);
      stack := stack[..|stack| - 1];
    }
    done := done0 + {at, h};
    GoPast(code, xs, ls, open, fm, done0, at, pushed, null0, h, stack);
    ReachedPast(code, fm, at, pushed, null0, h, stack);
    WeightLess(n, at, p);
  }

  method SetAll(fastmap: array<bool>, v: bool)
    modifies fastmap
    ensures forall j :: 0 <= j < fastmap.Length ==> fastmap[j] == v
  {
    for j := 0 to fastmap.Length
      invariant forall k :: 0 <= k < j ==> fastmap[k] == v
    {
      fastmap[j] := v;
    }
  }

  lemma GoingFacts(code: seq<byte>, xs: set<int>, ls: set<Span>, fm: seq<bool>, done: set<int>, p: int, path: bool, stack: seq<int>, nul: bool)
    requires Going(code, xs, ls, fm, done, p, path, stack, nul)
    ensures 0 <= p <= |code| && (!path ==> p == |code|) && forall q :: q in stack ==> 0 <= q < |code|
  {
  }

  lemma PopWeight(n: int, stack: seq<int>)
    requires stack != []
    ensures Weights(n, stack) == Weights(n, stack[..|stack| - 1]) + Weight(n, stack[|stack| - 1])
  {
  }

  lemma MapDone(code: seq<byte>, xs: set<int>, ls: set<Span>, fm: seq<bool>, done: set<int>, path: bool, was: bool, nul: bool)
    requires Going(code, xs, ls, fm, done, |code|, path, [], was) && nul == (was || path)
    ensures forall w :: Language(code, w) ==> nul || (w != [] && fm[w[0]])
  {
    assert Todo(|code|, |code|, path, []) == {};
    forall w | Language(code, w) ensures nul || (w != [] && fm[w[0]]) {
      var k: nat :| Accepts(code, w, 0, 0, k);
      MapSound(code, fm, done, nul, 0, w, k);
    }
  }
}
