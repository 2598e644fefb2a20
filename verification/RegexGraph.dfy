/**
 The instructions of compiled code as a graph: where they start, where they lead without
 consuming a character, and which of them are inside a loop.
 */
module RegexGraph {
  import opened Basics
  import opened RegexSyntax
  import opened RegexCode
  import opened RegexMachine

  /** A loop from its on_failure_jump to its maybe_pop_jump. */
  datatype Span = Span(head: int, tail: int)

  predicate Inside(s: Span, x: int) {
    s.head + 3 <= x <= s.tail
  }

  function Size(c: Code): int {
    |Bytes(c)|
  }

  function ItemSize(t: Item): int {
    |ItemBytes(t)|
  }

  /** The addresses of the instructions of a tree placed at `lo`. */
  function Instrs(c: Code, lo: int): set<int> {
    match c
    case Nothing => {}
    case Then(front, item) => Instrs(front, lo) + ItemInstrs(item, lo + Size(front))
    case Choice(l, r) => {lo} + {lo + 3 + Size(l)} + Instrs(l, lo + 3) + Instrs(r, lo + 3 + Size(l) + 3)
  }

  function ItemInstrs(t: Item, lo: int): set<int> {
    match t
    case Run(_) => {lo}
    case Any => {lo}
    case Dummy => {lo}
    case Loop(ops, b) =>
      var head := lo + HeadSize(ZeroOk(ops));
      {lo} + {head} + ItemInstrs(b, head + 3) + (if ManyOk(ops) then {head + 3 + ItemSize(b)} else {})
    case Mem(reg, _, c) =>
      var start := lo + MemSize(reg);
      (if reg <= MAX_REGNUM then {lo} + {start + Size(c) + DummySize(c)} else {}) + Instrs(c, start) +
      (if c.Choice? then {start + Size(c)} else {})
  }

  function DummySize(c: Code): int {
    if c.Choice? then 1 else 0
  }

  function Loops(c: Code, lo: int): set<Span> {
    match c
    case Nothing => {}
    case Then(front, item) => Loops(front, lo) + ItemLoops(item, lo + Size(front))
    case Choice(l, r) => Loops(l, lo + 3) + Loops(r, lo + 3 + Size(l) + 3)
  }

  function ItemLoops(t: Item, lo: int): set<Span> {
    match t
    case Run(_) => {}
    case Any => {}
    case Dummy => {}
    case Loop(ops, b) =>
      var head := lo + HeadSize(ZeroOk(ops));
      ItemLoops(b, head + 3) + (if ManyOk(ops) then {Span(head, head + 3 + ItemSize(b))} else {})
    case Mem(reg, _, c) => Loops(c, lo + MemSize(reg))
  }

  /** A step that consumes nothing. */
  predicate Steps(code: seq<byte>, x: int, y: int)
    requires 0 <= x < |code|
  {
    match Decode(code, x)
    case Go(next) => y == next
    case Fork(next, other) => y == next || y == other
    case _ => false
  }

  // ----- Extents -----

  /** All instructions and loops of a part lie inside it; a part of positive size starts with
      an instruction. */
  ghost predicate Extent(xs: set<int>, ls: set<Span>, lo: int, hi: int) {
    && lo <= hi && (forall x :: x in xs ==> lo <= x < hi) && (forall s :: s in ls ==> lo <= s.head && s.head + 3 <= s.tail < hi)
    && (lo < hi ==> lo in xs)
  }

  lemma {:induction false} CodeExtent(c: Code, lo: int)
    requires Wf(c)
    ensures Extent(Instrs(c, lo), Loops(c, lo), lo, lo + Size(c))
    decreases c
  {
    match c
    case Nothing =>
    case Then(front, item) => ThenExtent(front, item, lo);
    case Choice(l, r) => ChoiceExtent(l, r, lo);
  }

  lemma {:induction false} ThenExtent(front: Code, item: Item, lo: int)
    requires Wf(Then(front, item))
    ensures var c := Then(front, item); Extent(Instrs(c, lo), Loops(c, lo), lo, lo + Size(c))
    decreases Then(front, item), 0
  {
    hide *;
    var mid := lo + Size(front);
    WfParts(front, item);
    ThenUnfold(front, item, lo);
    CodeExtent(front, lo);
    ItemExtent(item, mid);
    Adjoin(Instrs(front, lo), Loops(front, lo), lo, mid, ItemInstrs(item, mid), ItemLoops(item, mid), mid + ItemSize(item));
  }

  lemma {:induction false} ChoiceExtent(l: Code, r: Code, lo: int)
    requires Wf(Choice(l, r))
    ensures var c := Choice(l, r); Extent(Instrs(c, lo), Loops(c, lo), lo, lo + Size(c))
    decreases Choice(l, r), 0
  {
    hide *;
    var mid := lo + 3 + Size(l);
    WfChoice(l, r);
    ChoiceUnfold(l, r, lo);
    CodeExtent(l, lo + 3);
    CodeExtent(r, mid + 3);
    ForkExtent(lo, mid, mid + 3 + Size(r), Instrs(l, lo + 3), Loops(l, lo + 3), Instrs(r, mid + 3), Loops(r, mid + 3));
  }

  /** Two parts one after the other. */
  lemma Adjoin(a: set<int>, al: set<Span>, lo: int, mid: int, b: set<int>, bl: set<Span>, hi: int)
    requires Extent(a, al, lo, mid) && Extent(b, bl, mid, hi)
    ensures Extent(a + b, al + bl, lo, hi)
  {
  }

  lemma ForkExtent(lo: int, mid: int, hi: int, a: set<int>, al: set<Span>, b: set<int>, bl: set<Span>)
    requires Extent(a, al, lo + 3, mid) && Extent(b, bl, mid + 3, hi)
    ensures Extent({lo} + {mid} + a + b, al + bl, lo, hi)
  {
  }

  lemma ChoiceSize(l: Code, r: Code)
    ensures Size(Choice(l, r)) == 6 + Size(l) + Size(r)
  {
  }

  lemma LoopSize(ops: seq<byte>, b: Item)
    ensures ItemSize(Loop(ops, b)) == HeadSize(ZeroOk(ops)) + 3 + ItemSize(b) + if ManyOk(ops) then 3 else 0
  {
  }

  lemma GroupSize(reg: nat, inner: nat, c: Code)
    ensures ItemSize(Mem(reg, inner, c)) == 2 * MemSize(reg) + Size(c) + DummySize(c)
  {
  }

  lemma {:induction false} ItemExtent(t: Item, lo: int)
    requires WfItem(t)
    ensures Extent(ItemInstrs(t, lo), ItemLoops(t, lo), lo, lo + ItemSize(t))
    decreases t
  {
    match t
    case Run(_) =>
    case Any =>
    case Dummy =>
    case Loop(ops, b) => RepExtent(ops, b, lo);
    case Mem(reg, inner, c) => GroupExtent(reg, inner, c, lo);
  }

  lemma {:induction false} RepExtent(ops: seq<byte>, b: Item, lo: int)
    requires WfItem(Loop(ops, b))
    ensures var t := Loop(ops, b); Extent(ItemInstrs(t, lo), ItemLoops(t, lo), lo, lo + ItemSize(t))
    decreases Loop(ops, b), 0
  {
    hide *;
    var head := lo + HeadSize(ZeroOk(ops));
    HeadSizes(ZeroOk(ops));
    WfLoop(ops, b);
    LoopUnfold(ops, b, lo);
    ItemExtent(b, head + 3);
    LoopExtent(lo, head, head + 3 + ItemSize(b), ManyOk(ops), ItemInstrs(b, head + 3), ItemLoops(b, head + 3));
  }

  lemma {:induction false} GroupExtent(reg: nat, inner: nat, c: Code, lo: int)
    requires WfItem(Mem(reg, inner, c))
    ensures var t := Mem(reg, inner, c); Extent(ItemInstrs(t, lo), ItemLoops(t, lo), lo, lo + ItemSize(t))
    decreases Mem(reg, inner, c), 0
  {
    hide *;
    var start := lo + MemSize(reg);
    var dummy := start + Size(c);
    MemSizes(reg, inner, c);
    MemUnfold(reg, inner, c, lo);
    CodeExtent(c, start);
    MemExtent(lo, MemSize(reg) == 3, dummy, c.Choice?, Instrs(c, start), Loops(c, start));
  }

  lemma MemSizes(reg: nat, inner: nat, c: Code)
    ensures (MemSize(reg) == 0 || MemSize(reg) == 3) && DummySize(c) == (if c.Choice? then 1 else 0)
    ensures MemSize(reg) == 3 <==> reg <= MAX_REGNUM
    ensures WfItem(Mem(reg, inner, c)) <==> Wf(c)
  {
  }

  lemma LoopExtent(lo: int, head: int, tail: int, many: bool, a: set<int>, al: set<Span>)
    requires lo <= head && Extent(a, al, head + 3, tail)
    ensures Extent({lo} + {head} + a + (if many then {tail} else {}), al + (if many then {Span(head, tail)} else {}),
                   lo, tail + if many then 3 else 0)
  {
  }

  lemma MemExtent(lo: int, memory: bool, dummy: int, choice: bool, a: set<int>, al: set<Span>)
    requires Extent(a, al, lo + if memory then 3 else 0, dummy)
    ensures var stop := dummy + if choice then 1 else 0;
      Extent((if memory then {lo} + {stop} else {}) + a + (if choice then {dummy} else {}), al, lo, stop + if memory then 3 else 0)
  {
  }

  // ----- Steps stay in the graph -----

  ghost predicate Good(code: seq<byte>, xs: set<int>, ls: set<Span>, hi: int, x: int)
    requires 0 <= x < |code|
  {
    && Decode(code, x) != Bad && (Decode(code, x).Chars? ==> Decode(code, x).chars != [])
    && (Decode(code, x).Chars? || Decode(code, x).One? ==> Decode(code, x).next > x && (Decode(code, x).next in xs || Decode(code, x).next == hi))
    && (forall y :: Steps(code, x, y) ==> y in xs || y == hi)
    && (code[x] != MAYBE_POP_JUMP ==> forall y :: Steps(code, x, y) ==> y > x)
    && (code[x] == DUMMY_FAILURE_JUMP ==> Decode(code, x) == Go(x + 6))
    && (code[x] == JUMP_PAST_ALT ==> Decode(code, x).Go? && Decode(code, x).next >= x + 3)
    && (code[x] == MAYBE_POP_JUMP ==> Decode(code, x).Go? && LoopBack(code, xs, ls, Decode(code, x).next, x))
  }

  /** The backward jump of a loop leads to its on_failure_jump, which leads past it. */
  ghost predicate LoopBack(code: seq<byte>, xs: set<int>, ls: set<Span>, h: int, x: int) {
    && 0 <= h && h + 3 <= x && x < |code| && code[h] == ON_FAILURE_JUMP && Decode(code, h) == Fork(h + 3, x + 3)
    && Span(h, x) in ls && h in xs
  }

  ghost predicate AllGood(code: seq<byte>, xs: set<int>, ls: set<Span>, hi: int, part: set<int>) {
    forall x :: x in part ==> 0 <= x < |code| && Good(code, xs, ls, hi, x)
  }

  /** What holds of a part holds of the whole around it, if the whole goes on after the part. */
  lemma Widen(code: seq<byte>, xs: set<int>, ls: set<Span>, hi: int, part: set<int>, xs': set<int>, ls': set<Span>, hi': int)
    requires AllGood(code, xs, ls, hi, part) && xs <= xs' && ls <= ls' && (hi in xs' || hi == hi')
    ensures AllGood(code, xs', ls', hi', part)
  {
    forall x | x in part ensures 0 <= x < |code| && Good(code, xs', ls', hi', x) {
      assert Good(code, xs, ls, hi, x);
    }
  }

  lemma GoodGo(code: seq<byte>, xs: set<int>, ls: set<Span>, hi: int, x: int, next: int)
    requires 0 <= x < |code| && Decode(code, x) == Go(next) && code[x] != MAYBE_POP_JUMP && x < next && (next in xs || next == hi)
    requires (code[x] == DUMMY_FAILURE_JUMP ==> next == x + 6) && (code[x] == JUMP_PAST_ALT ==> next >= x + 3)
    ensures AllGood(code, xs, ls, hi, {x})
  {
  }

  lemma GoodFork(code: seq<byte>, xs: set<int>, ls: set<Span>, hi: int, x: int, next: int, other: int)
    requires 0 <= x < |code| && Decode(code, x) == Fork(next, other) && code[x] != MAYBE_POP_JUMP && x < next && x < other
    requires (next in xs || next == hi) && (other in xs || other == hi)
    ensures AllGood(code, xs, ls, hi, {x})
  {
  }

  lemma GoodBack(code: seq<byte>, xs: set<int>, ls: set<Span>, hi: int, h: int, x: int)
    requires 0 <= x < |code| && Decode(code, x) == Go(h) && code[x] == MAYBE_POP_JUMP && LoopBack(code, xs, ls, h, x)
    ensures AllGood(code, xs, ls, hi, {x})
  {
  }

  lemma StartsAt(xs: set<int>, ls: set<Span>, lo: int, hi: int)
    requires Extent(xs, ls, lo, hi)
    ensures lo <= hi && (lo in xs || lo == hi)
  {
  }

  lemma {:induction false} CodeGood(code: seq<byte>, c: Code, lo: int)
    requires Wf(c) && Holds(code, lo, Bytes(c)) && |code| < SMALL
    ensures AllGood(code, Instrs(c, lo), Loops(c, lo), lo + Size(c), Instrs(c, lo))
    decreases c
  {
    match c
    case Nothing =>
    case Then(front, item) => ThenGood(code, front, item, lo);
    case Choice(l, r) => ChoiceGood(code, l, r, lo);
  }

  lemma {:induction false} ThenGood(code: seq<byte>, front: Code, item: Item, lo: int)
    requires Wf(Then(front, item)) && Holds(code, lo, Bytes(Then(front, item))) && |code| < SMALL
    ensures var c := Then(front, item); AllGood(code, Instrs(c, lo), Loops(c, lo), lo + Size(c), Instrs(c, lo))
    decreases Then(front, item), 0
  {
    hide *;
    var xs, ls, hi := Instrs(Then(front, item), lo), Loops(Then(front, item), lo), lo + Size(Then(front, item));
    var mid := lo + Size(front);
    var a, b, al, bl := Instrs(front, lo), ItemInstrs(item, mid), Loops(front, lo), ItemLoops(item, mid);
    ThenGraph(code, front, item, lo);
    CodeGood(code, front, lo);
    ItemGood(code, item, mid);
    Widen(code, a, al, mid, a, xs, ls, hi);
    Widen(code, b, bl, hi, b, xs, ls, hi);
    Join(code, xs, ls, hi, a, b);
  }

  lemma ThenGraph(code: seq<byte>, front: Code, item: Item, lo: int)
    requires Wf(Then(front, item)) && Holds(code, lo, Bytes(Then(front, item)))
    ensures var c := Then(front, item); var mid := lo + Size(front);
      && Wf(front) && WfItem(item) && Holds(code, lo, Bytes(front)) && Holds(code, mid, ItemBytes(item))
      && Instrs(c, lo) == Instrs(front, lo) + ItemInstrs(item, mid) && Loops(c, lo) == Loops(front, lo) + ItemLoops(item, mid)
      && lo + Size(c) == mid + ItemSize(item) && (mid in ItemInstrs(item, mid) || mid == lo + Size(c))
  {
    hide *;
    WfParts(front, item);
    ThenUnfold(front, item, lo);
    AtThen(code, lo, front, item);
    SizeIs(front);
    ItemExtent(item, lo + Size(front));
    StartsAt(ItemInstrs(item, lo + Size(front)), ItemLoops(item, lo + Size(front)), lo + Size(front), lo + Size(front) + ItemSize(item));
  }

  lemma SizeIs(c: Code)
    ensures Size(c) == |Bytes(c)|
  {
  }

  lemma ItemSizeIs(t: Item)
    ensures ItemSize(t) == |ItemBytes(t)|
  {
  }

  lemma WfParts(front: Code, item: Item)
    requires Wf(Then(front, item))
    ensures Wf(front) && WfItem(item)
  {
  }

  lemma ThenUnfold(front: Code, item: Item, lo: int)
    ensures var c := Then(front, item); var mid := lo + Size(front);
      && Instrs(c, lo) == Instrs(front, lo) + ItemInstrs(item, mid) && Loops(c, lo) == Loops(front, lo) + ItemLoops(item, mid)
      && Size(c) == Size(front) + ItemSize(item)
  {
    ThenSize(front, item);
    hide Bytes, ItemBytes, ItemInstrs, ItemLoops, Size, ItemSize;
  }

  lemma ThenSize(front: Code, item: Item)
    ensures Size(Then(front, item)) == Size(front) + ItemSize(item)
  {
  }

  lemma Join(code: seq<byte>, xs: set<int>, ls: set<Span>, hi: int, a: set<int>, b: set<int>)
    requires AllGood(code, xs, ls, hi, a) && AllGood(code, xs, ls, hi, b)
    ensures AllGood(code, xs, ls, hi, a + b)
  {
  }

  lemma {:induction false} ChoiceGood(code: seq<byte>, l: Code, r: Code, lo: int)
    requires Wf(Choice(l, r)) && Holds(code, lo, Bytes(Choice(l, r))) && |code| < SMALL
    ensures AllGood(code, Instrs(Choice(l, r), lo), Loops(Choice(l, r), lo), lo + Size(Choice(l, r)), Instrs(Choice(l, r), lo))
    decreases Choice(l, r), 0
  {
    hide *;
    var xs, ls, hi := Instrs(Choice(l, r), lo), Loops(Choice(l, r), lo), lo + Size(Choice(l, r));
    var mid := lo + 3 + Size(l);
    var a, b, al, bl := Instrs(l, lo + 3), Instrs(r, mid + 3), Loops(l, lo + 3), Loops(r, mid + 3);
    WfChoice(l, r);
    OpsDiffer();
    ChoiceParts(code, lo, l, r);
    SizeIs(l);
    SizeIs(r);
    ChoiceUnfold(l, r, lo);
    CodeExtent(l, lo + 3);
    StartsAt(a, al, lo + 3, mid);
    CodeExtent(r, mid + 3);
    StartsAt(b, bl, mid + 3, hi);
    CodeGood(code, l, lo + 3);
    CodeGood(code, r, mid + 3);
    PastInstr(r, mid + 3);
    Widen(code, a, al, mid, a, xs, ls, hi);
    Widen(code, b, bl, hi, b, xs, ls, hi);
    GoodFork(code, xs, ls, hi, lo, lo + 3, mid + 3);
    GoodGo(code, xs, ls, hi, mid, mid + 3 + Past(r));
    Join(code, xs, ls, hi, {lo}, {mid});
    Join(code, xs, ls, hi, {lo} + {mid}, a);
    Join(code, xs, ls, hi, {lo} + {mid} + a, b);
  }

  lemma WfChoice(l: Code, r: Code)
    requires Wf(Choice(l, r))
    ensures Wf(l) && Wf(r) && !l.Choice?
  {
  }

  lemma OpsDiffer()
    ensures ON_FAILURE_JUMP != MAYBE_POP_JUMP && JUMP_PAST_ALT != MAYBE_POP_JUMP && DUMMY_FAILURE_JUMP != MAYBE_POP_JUMP
    ensures START_MEMORY != MAYBE_POP_JUMP && STOP_MEMORY != MAYBE_POP_JUMP && PUSH_DUMMY_FAILURE != MAYBE_POP_JUMP
    ensures JUMP_PAST_ALT != DUMMY_FAILURE_JUMP && START_MEMORY != DUMMY_FAILURE_JUMP && STOP_MEMORY != DUMMY_FAILURE_JUMP
    ensures PUSH_DUMMY_FAILURE != DUMMY_FAILURE_JUMP && DUMMY_FAILURE_JUMP != JUMP_PAST_ALT
    ensures START_MEMORY != JUMP_PAST_ALT && STOP_MEMORY != JUMP_PAST_ALT && PUSH_DUMMY_FAILURE != JUMP_PAST_ALT
  {
  }

  lemma ChoiceUnfold(l: Code, r: Code, lo: int)
    ensures var c := Choice(l, r); var mid := lo + 3 + Size(l);
      && Instrs(c, lo) == {lo} + {mid} + Instrs(l, lo + 3) + Instrs(r, mid + 3) && Loops(c, lo) == Loops(l, lo + 3) + Loops(r, mid + 3)
      && Size(c) == 6 + Size(l) + Size(r)
  {
    hide *;
    ChoiceSize(l, r);
    ChoiceInstrs(l, r, lo);
    ChoiceLoops(l, r, lo);
  }

  lemma ChoiceInstrs(l: Code, r: Code, lo: int)
    ensures Instrs(Choice(l, r), lo) == {lo} + {lo + 3 + Size(l)} + Instrs(l, lo + 3) + Instrs(r, lo + 3 + Size(l) + 3)
  {
    hide Size;
  }

  lemma ChoiceLoops(l: Code, r: Code, lo: int)
    ensures Loops(Choice(l, r), lo) == Loops(l, lo + 3) + Loops(r, lo + 3 + Size(l) + 3)
  {
    hide Size;
  }

  /** The jump past an alternative lands on an instruction or at the end. */
  lemma PastInstr(r: Code, lo: int)
    ensures lo + Past(r) in Instrs(r, lo) || lo + Past(r) == lo + Size(r)
  {
  }

  lemma {:induction false} ItemGood(code: seq<byte>, t: Item, lo: int)
    requires WfItem(t) && Holds(code, lo, ItemBytes(t)) && |code| < SMALL
    ensures AllGood(code, ItemInstrs(t, lo), ItemLoops(t, lo), lo + ItemSize(t), ItemInstrs(t, lo))
    decreases t
  {
    match t
    case Run(cs) => AtRun(code, lo, cs);
    case Any => AtByte(code, lo, ANYCHAR);
    case Dummy => AtByte(code, lo, PUSH_DUMMY_FAILURE);
    case Loop(ops, b) => LoopGood(code, ops, b, lo);
    case Mem(reg, inner, c) => MemGood(code, reg, inner, c, lo);
  }

  lemma {:induction false} LoopGood(code: seq<byte>, ops: seq<byte>, b: Item, lo: int)
    requires WfItem(Loop(ops, b)) && Holds(code, lo, ItemBytes(Loop(ops, b))) && |code| < SMALL
    ensures var t := Loop(ops, b); AllGood(code, ItemInstrs(t, lo), ItemLoops(t, lo), lo + ItemSize(t), ItemInstrs(t, lo))
    decreases Loop(ops, b), 0
  {
    hide *;
    var t := Loop(ops, b);
    var xs, ls, hi := ItemInstrs(t, lo), ItemLoops(t, lo), lo + ItemSize(t);
    var zero, many := ZeroOk(ops), ManyOk(ops);
    var head := lo + HeadSize(zero);
    var tail := head + 3 + ItemSize(b);
    var a, al := ItemInstrs(b, head + 3), ItemLoops(b, head + 3);
    WfLoop(ops, b);
    OpsDiffer();
    HeadSizes(zero);
    LoopUnfold(ops, b, lo);
    AtLoop(code, lo, zero, many, ItemBytes(b));
    ItemSizeIs(b);
    ItemExtent(b, head + 3);
    StartsAt(a, al, head + 3, tail);
    ItemGood(code, b, head + 3);
    Widen(code, a, al, tail, a, xs, ls, hi);
    GoodFork(code, xs, ls, hi, head, head + 3, tail + if many then 3 else 0);
    if !zero {
      GoodGo(code, xs, ls, hi, lo, head + 3);
    }
    Join(code, xs, ls, hi, {lo}, {head});
    Join(code, xs, ls, hi, {lo} + {head}, a);
    if many {
      MakeLoopBack(code, xs, ls, head, tail);
      GoodBack(code, xs, ls, hi, head, tail);
    } else {
      NoneGood(code, xs, ls, hi);
    }
    Join(code, xs, ls, hi, {lo} + {head} + a, if many then {tail} else {});
  }

  lemma MakeLoopBack(code: seq<byte>, xs: set<int>, ls: set<Span>, h: int, x: int)
    requires 0 <= h && h + 3 <= x && x < |code| && code[h] == ON_FAILURE_JUMP && Decode(code, h) == Fork(h + 3, x + 3)
    requires Span(h, x) in ls && h in xs
    ensures LoopBack(code, xs, ls, h, x)
  {
  }

  lemma HeadSizes(zero: bool)
    ensures HeadSize(zero) == if zero then 0 else 3
  {
  }

  lemma WfLoop(ops: seq<byte>, b: Item)
    requires WfItem(Loop(ops, b))
    ensures WfItem(b)
  {
  }

  lemma LoopUnfold(ops: seq<byte>, b: Item, lo: int)
    ensures var t := Loop(ops, b); var head := lo + HeadSize(ZeroOk(ops)); var tail := head + 3 + ItemSize(b);
      && ItemInstrs(t, lo) == {lo} + {head} + ItemInstrs(b, head + 3) + (if ManyOk(ops) then {tail} else {})
      && ItemLoops(t, lo) == ItemLoops(b, head + 3) + (if ManyOk(ops) then {Span(head, tail)} else {})
      && ItemSize(t) == tail - lo + (if ManyOk(ops) then 3 else 0)
      && ItemBytes(t) == LoopBytes(ZeroOk(ops), ManyOk(ops), ItemBytes(b))
  {
    LoopSize(ops, b);
    hide Bytes, LoopBytes, ItemSize;
  }

  lemma {:induction false} MemGood(code: seq<byte>, reg: nat, inner: nat, c: Code, lo: int)
    requires Wf(c) && Holds(code, lo, ItemBytes(Mem(reg, inner, c))) && |code| < SMALL
    ensures var t := Mem(reg, inner, c); AllGood(code, ItemInstrs(t, lo), ItemLoops(t, lo), lo + ItemSize(t), ItemInstrs(t, lo))
    decreases Mem(reg, inner, c), 0
  {
    hide *;
    var t := Mem(reg, inner, c);
    var xs, ls, hi := ItemInstrs(t, lo), ItemLoops(t, lo), lo + ItemSize(t);
    var start := lo + MemSize(reg);
    var dummy := start + Size(c);
    var stop := dummy + DummySize(c);
    var a := Instrs(c, start);
    OpsDiffer();
    MemSizes(reg, inner, c);
    MemUnfold(reg, inner, c, lo);
    AtMem(code, lo, reg, inner, c.Choice?, Bytes(c));
    SizeIs(c);
    CodeExtent(c, start);
    StartsAt(a, ls, start, dummy);
    CodeGood(code, c, start);
    Widen(code, a, ls, dummy, a, xs, ls, hi);
    NoneGood(code, xs, ls, hi);
    if c.Choice? {
      GoodGo(code, xs, ls, hi, dummy, stop);
    }
    if MemSize(reg) == 3 {
      GoodGo(code, xs, ls, hi, lo, start);
      GoodGo(code, xs, ls, hi, stop, stop + 3);
      Join(code, xs, ls, hi, {lo}, {stop});
    }
    var memory, push := if MemSize(reg) == 3 then {lo} + {stop} else {}, if c.Choice? then {dummy} else {};
    Join(code, xs, ls, hi, memory, a);
    Join(code, xs, ls, hi, memory + a, push);
  }

  lemma MemUnfold(reg: nat, inner: nat, c: Code, lo: int)
    ensures var t := Mem(reg, inner, c); var start := lo + MemSize(reg); var dummy := start + Size(c); var stop := dummy + DummySize(c);
      && ItemInstrs(t, lo) == (if MemSize(reg) == 3 then {lo} + {stop} else {}) + Instrs(c, start) + (if c.Choice? then {dummy} else {})
      && ItemLoops(t, lo) == Loops(c, start) && ItemSize(t) == stop + MemSize(reg) - lo
      && ItemBytes(t) == MemBytes(reg, inner, c.Choice?, Bytes(c))
  {
    GroupSize(reg, inner, c);
  }

  lemma NoneGood(code: seq<byte>, xs: set<int>, ls: set<Span>, hi: int)
    ensures AllGood(code, xs, ls, hi, {})
  {
  }

  // ----- A loop's body is entered at its start -----

  ghost predicate Enters(code: seq<byte>, part: set<int>, ls: set<Span>) {
    forall x, y, s {:trigger x in part, s in ls, Inside(s, y)} :: x in part && s in ls && Inside(s, y) && 0 <= x < |code| && Steps(code, x, y) ==>
      Inside(s, x) || (y == s.head + 3 && x < y)
  }

  lemma EntersJoin(code: seq<byte>, a: set<int>, b: set<int>, al: set<Span>, bl: set<Span>)
    requires Enters(code, a, al) && Enters(code, a, bl) && Enters(code, b, al) && Enters(code, b, bl)
    ensures Enters(code, a + b, al + bl)
  {
  }

  /** Steps that stay between `lo` and `hi` do not enter loops elsewhere. */
  lemma EntersNot(code: seq<byte>, part: set<int>, lo: int, hi: int, xs: set<int>, ls0: set<Span>, ls: set<Span>)
    requires AllGood(code, xs, ls0, hi, part) && (forall x :: x in xs ==> lo <= x < hi) && lo <= hi
    requires forall s :: s in ls ==> hi < s.head + 3 || s.tail < lo
    ensures Enters(code, part, ls)
  {
    forall x, y | x in part && 0 <= x < |code| && Steps(code, x, y) ensures lo <= y <= hi {
      assert Good(code, xs, ls0, hi, x);
    }
  }

  lemma GoEnters(code: seq<byte>, x: int, next: int, ls: set<Span>)
    requires 0 <= x < |code| && Decode(code, x) == Go(next)
    requires forall s :: s in ls && Inside(s, next) ==> Inside(s, x) || (next == s.head + 3 && x < next)
    ensures Enters(code, {x}, ls)
  {
  }

  lemma GoOutside(code: seq<byte>, x: int, next: int, ls: set<Span>, lo: int, hi: int)
    requires 0 <= x < |code| && Decode(code, x) == Go(next) && (next <= lo || hi <= next)
    requires forall s :: s in ls ==> lo <= s.head && s.tail < hi
    ensures Enters(code, {x}, ls)
  {
  }

  lemma ForkEnters(code: seq<byte>, x: int, next: int, other: int, ls: set<Span>)
    requires 0 <= x < |code| && Decode(code, x) == Fork(next, other)
    requires forall s :: s in ls && Inside(s, next) ==> Inside(s, x) || (next == s.head + 3 && x < next)
    requires forall s :: s in ls && Inside(s, other) ==> Inside(s, x) || (other == s.head + 3 && x < other)
    ensures Enters(code, {x}, ls)
  {
  }

  lemma EntersUnion(code: seq<byte>, a: set<int>, b: set<int>, ls: set<Span>)
    requires Enters(code, a, ls) && Enters(code, b, ls)
    ensures Enters(code, a + b, ls)
  {
  }

  lemma ExtentFacts(xs: set<int>, ls: set<Span>, lo: int, hi: int)
    requires Extent(xs, ls, lo, hi)
    ensures lo <= hi && (forall x :: x in xs ==> lo <= x < hi) && (forall s :: s in ls ==> lo <= s.head && s.head + 3 <= s.tail < hi)
  {
  }

  lemma {:induction false} CodeEnters(code: seq<byte>, c: Code, lo: int)
    requires Wf(c) && Holds(code, lo, Bytes(c)) && |code| < SMALL
    ensures Enters(code, Instrs(c, lo), Loops(c, lo))
    decreases c
  {
    match c
    case Nothing =>
    case Then(front, item) => ThenEnters(code, front, item, lo);
    case Choice(l, r) => ChoiceEnters(code, l, r, lo);
  }

  lemma {:induction false} ThenEnters(code: seq<byte>, front: Code, item: Item, lo: int)
    requires Wf(Then(front, item)) && Holds(code, lo, Bytes(Then(front, item))) && |code| < SMALL
    ensures Enters(code, Instrs(Then(front, item), lo), Loops(Then(front, item), lo))
    decreases Then(front, item), 0
  {
    hide *;
    var mid := lo + Size(front);
    var hi := mid + ItemSize(item);
    var a, b, al, bl := Instrs(front, lo), ItemInstrs(item, mid), Loops(front, lo), ItemLoops(item, mid);
    ThenGraph(code, front, item, lo);
    CodeEnters(code, front, lo);
    ItemEnters(code, item, mid);
    CodeGood(code, front, lo);
    ItemGood(code, item, mid);
    CodeExtent(front, lo);
    ExtentFacts(a, al, lo, mid);
    ItemExtent(item, mid);
    ExtentFacts(b, bl, mid, hi);
    EntersNot(code, a, lo, mid, a, al, bl);
    EntersNot(code, b, mid, hi, b, bl, al);
    EntersJoin(code, a, b, al, bl);
  }

  lemma {:induction false} ChoiceEnters(code: seq<byte>, l: Code, r: Code, lo: int)
    requires Wf(Choice(l, r)) && Holds(code, lo, Bytes(Choice(l, r))) && |code| < SMALL
    ensures Enters(code, Instrs(Choice(l, r), lo), Loops(Choice(l, r), lo))
    decreases Choice(l, r), 0
  {
    hide *;
    var mid := lo + 3 + Size(l);
    var hi := mid + 3 + Size(r);
    var a, b, al, bl := Instrs(l, lo + 3), Instrs(r, mid + 3), Loops(l, lo + 3), Loops(r, mid + 3);
    WfChoice(l, r);
    SizeIs(l);
    SizeIs(r);
    ChoiceParts(code, lo, l, r);
    ChoiceUnfold(l, r, lo);
    CodeEnters(code, l, lo + 3);
    CodeEnters(code, r, mid + 3);
    CodeGood(code, l, lo + 3);
    CodeGood(code, r, mid + 3);
    CodeExtent(l, lo + 3);
    ExtentFacts(a, al, lo + 3, mid);
    CodeExtent(r, mid + 3);
    ExtentFacts(b, bl, mid + 3, hi);
    EntersNot(code, a, lo + 3, mid, a, al, bl);
    EntersNot(code, b, mid + 3, hi, b, bl, al);
    EntersJoin(code, a, b, al, bl);
    ChoiceNodes(code, lo, mid, r, al, bl);
    EntersUnion(code, {lo} + {mid}, a + b, al + bl);
    assert {lo} + {mid} + (a + b) == {lo} + {mid} + a + b;
  }

  lemma ChoiceNodes(code: seq<byte>, lo: int, mid: int, r: Code, al: set<Span>, bl: set<Span>)
    requires 0 <= lo && lo + 3 <= mid < |code| && Decode(code, lo) == Fork(lo + 3, mid + 3) && Decode(code, mid) == Go(mid + 3 + Past(r))
    requires Wf(r) && bl == Loops(r, mid + 3) && (forall s :: s in al ==> lo + 3 <= s.head && s.tail < mid)
    ensures Enters(code, {lo} + {mid}, al + bl)
  {
    PastOutside(r, mid + 3);
    CodeExtent(r, mid + 3);
    hide Decode, Past, Loops, Instrs, Wf, Enters;
    ForkEnters(code, lo, lo + 3, mid + 3, al + bl);
    GoEnters(code, mid, mid + 3 + Past(r), al + bl);
    EntersUnion(code, {lo}, {mid}, al + bl);
  }

  /** The jump past an alternative leads into no loop of the alternatives it passes. */
  lemma PastOutside(r: Code, lo: int)
    requires Wf(r)
    ensures 0 <= Past(r) && forall s :: s in Loops(r, lo) ==> !Inside(s, lo + Past(r))
  {
    hide Instrs;
    CodeExtent(r, lo);
    if r.Choice? {
      CodeExtent(r.left, lo + 3);
      CodeExtent(r.right, lo + 6 + Size(r.left));
      ChoiceUnfold(r.left, r.right, lo);
      hide Loops;
    }
  }

  lemma {:induction false} ItemEnters(code: seq<byte>, t: Item, lo: int)
    requires WfItem(t) && Holds(code, lo, ItemBytes(t)) && |code| < SMALL
    ensures Enters(code, ItemInstrs(t, lo), ItemLoops(t, lo))
    decreases t
  {
    match t
    case Run(_) =>
    case Any =>
    case Dummy =>
    case Loop(ops, b) => LoopEnters(code, ops, b, lo);
    case Mem(reg, inner, c) => MemEnters(code, reg, inner, c, lo);
  }

  lemma {:induction false} LoopEnters(code: seq<byte>, ops: seq<byte>, b: Item, lo: int)
    requires WfItem(Loop(ops, b)) && Holds(code, lo, ItemBytes(Loop(ops, b))) && |code| < SMALL
    ensures Enters(code, ItemInstrs(Loop(ops, b), lo), ItemLoops(Loop(ops, b), lo))
    decreases Loop(ops, b), 0
  {
    hide *;
    var zero, many := ZeroOk(ops), ManyOk(ops);
    var head := lo + HeadSize(zero);
    var tail := head + 3 + ItemSize(b);
    var a, al := ItemInstrs(b, head + 3), ItemLoops(b, head + 3);
    var own := if many then {Span(head, tail)} else {};
    WfLoop(ops, b);
    HeadSizes(zero);
    LoopUnfold(ops, b, lo);
    AtLoop(code, lo, zero, many, ItemBytes(b));
    ItemSizeIs(b);
    ItemEnters(code, b, head + 3);
    ItemExtent(b, head + 3);
    ExtentFacts(a, al, head + 3, tail);
    BodyEnters(code, a, al, own, head, tail);
    LoopNodes(code, lo, head, tail, many, al);
    EntersUnion(code, {lo} + {head} + (if many then {tail} else {}), a, al + own);
    assert {lo} + {head} + (if many then {tail} else {}) + a == {lo} + {head} + a + (if many then {tail} else {});
  }

  lemma BodyEnters(code: seq<byte>, a: set<int>, al: set<Span>, own: set<Span>, head: int, tail: int)
    requires Enters(code, a, al) && (forall x :: x in a ==> head + 3 <= x < tail) && forall s :: s in own ==> s == Span(head, tail)
    ensures Enters(code, a, al + own)
  {
  }

  lemma LoopNodes(code: seq<byte>, lo: int, head: int, tail: int, many: bool, al: set<Span>)
    requires 0 <= lo <= head < |code| && head + 3 <= tail && forall s :: s in al ==> head + 3 <= s.head && s.tail < tail
    requires lo < head ==> Decode(code, lo) == Go(head + 3)
    requires Decode(code, head) == Fork(head + 3, tail + if many then 3 else 0)
    requires many ==> tail < |code| && Decode(code, tail) == Go(head)
    ensures Enters(code, {lo} + {head} + (if many then {tail} else {}), al + if many then {Span(head, tail)} else {})
  {
    hide Decode, Enters;
    var ls := al + if many then {Span(head, tail)} else {};
    ForkEnters(code, head, head + 3, tail + if many then 3 else 0, ls);
    if lo < head {
      GoEnters(code, lo, head + 3, ls);
    }
    EntersUnion(code, {lo}, {head}, ls);
    if many {
      GoEnters(code, tail, head, ls);
      EntersUnion(code, {lo} + {head}, {tail}, ls);
    } else {
      assert {lo} + {head} + {} == {lo} + {head};
    }
  }

  lemma {:induction false} MemEnters(code: seq<byte>, reg: nat, inner: nat, c: Code, lo: int)
    requires Wf(c) && Holds(code, lo, ItemBytes(Mem(reg, inner, c))) && |code| < SMALL
    ensures Enters(code, ItemInstrs(Mem(reg, inner, c), lo), ItemLoops(Mem(reg, inner, c), lo))
    decreases Mem(reg, inner, c), 0
  {
    hide *;
    var start := lo + MemSize(reg);
    var dummy := start + Size(c);
    var stop := dummy + DummySize(c);
    var a, ls := Instrs(c, start), Loops(c, start);
    MemSizes(reg, inner, c);
    MemUnfold(reg, inner, c, lo);
    AtMem(code, lo, reg, inner, c.Choice?, Bytes(c));
    SizeIs(c);
    CodeEnters(code, c, start);
    CodeExtent(c, start);
    ExtentFacts(a, ls, start, dummy);
    EntersNone(code, ls);
    if MemSize(reg) == 3 {
      GoOutside(code, lo, start, ls, start, dummy);
      GoOutside(code, stop, stop + 3, ls, start, dummy);
      EntersUnion(code, {lo}, {stop}, ls);
    }
    if c.Choice? {
      GoOutside(code, dummy, stop, ls, start, dummy);
    }
    var memory, push := if MemSize(reg) == 3 then {lo} + {stop} else {}, if c.Choice? then {dummy} else {};
    EntersUnion(code, memory, a, ls);
    EntersUnion(code, memory + a, push, ls);
  }

  lemma EntersNone(code: seq<byte>, ls: set<Span>)
    ensures Enters(code, {}, ls)
  {
  }

  // ----- Jumps of length zero -----

  /** The last alternative of a choice has no code. */
  predicate LastEmpty(c: Code) {
    c.Choice? && if c.right.Choice? then LastEmpty(c.right) else Bytes(c.right) == []
  }

  /** A jump past an alternative that goes nowhere meets a push_dummy_failure, unless it is at
      the very end. */
  ghost predicate ZeroJumps(code: seq<byte>, part: set<int>, hi: int, open: bool) {
    forall x :: x in part && 0 <= x < |code| && code[x] == JUMP_PAST_ALT && Decode(code, x) == Go(x + 3) ==>
      (x + 3 < |code| && code[x + 3] == PUSH_DUMMY_FAILURE) || (open && x + 3 == hi)
  }

  lemma ZeroUnion(code: seq<byte>, a: set<int>, b: set<int>, hi: int, open: bool)
    requires ZeroJumps(code, a, hi, open) && ZeroJumps(code, b, hi, open)
    ensures ZeroJumps(code, a + b, hi, open)
  {
  }

  lemma ZeroClosed(code: seq<byte>, a: set<int>, hi: int, hi': int, open: bool)
    requires ZeroJumps(code, a, hi, false)
    ensures ZeroJumps(code, a, hi', open)
  {
  }

  lemma ZeroOther(code: seq<byte>, x: int, hi: int, open: bool)
    requires 0 <= x < |code| ==> code[x] != JUMP_PAST_ALT
    ensures ZeroJumps(code, {x}, hi, open)
  {
  }

  lemma {:induction false} CodeZero(code: seq<byte>, c: Code, lo: int)
    requires Wf(c) && Holds(code, lo, Bytes(c)) && |code| < SMALL
    ensures ZeroJumps(code, Instrs(c, lo), lo + Size(c), LastEmpty(c))
    decreases c
  {
    match c
    case Nothing =>
    case Then(front, item) => ThenZero(code, front, item, lo);
    case Choice(l, r) => ChoiceZero(code, l, r, lo);
  }

  lemma {:induction false} ThenZero(code: seq<byte>, front: Code, item: Item, lo: int)
    requires Wf(Then(front, item)) && Holds(code, lo, Bytes(Then(front, item))) && |code| < SMALL
    ensures ZeroJumps(code, Instrs(Then(front, item), lo), lo + Size(Then(front, item)), LastEmpty(Then(front, item)))
    decreases Then(front, item), 0
  {
    hide *;
    var mid, hi := lo + Size(front), lo + Size(Then(front, item));
    ThenGraph(code, front, item, lo);
    NotLast(Then(front, item));
    NotLast(front);
    WfFront(front, item);
    CodeZero(code, front, lo);
    ItemZero(code, item, mid);
    ZeroClosed(code, Instrs(front, lo), mid, hi, false);
    ZeroClosed(code, ItemInstrs(item, mid), 0, hi, false);
    ZeroUnion(code, Instrs(front, lo), ItemInstrs(item, mid), hi, false);
  }

  lemma NotLast(c: Code)
    ensures !c.Choice? ==> !LastEmpty(c)
  {
  }

  lemma WfFront(front: Code, item: Item)
    requires Wf(Then(front, item))
    ensures !front.Choice?
  {
  }

  lemma {:induction false} ChoiceZero(code: seq<byte>, l: Code, r: Code, lo: int)
    requires Wf(Choice(l, r)) && Holds(code, lo, Bytes(Choice(l, r))) && |code| < SMALL
    ensures ZeroJumps(code, Instrs(Choice(l, r), lo), lo + Size(Choice(l, r)), LastEmpty(Choice(l, r)))
    decreases Choice(l, r), 0
  {
    hide *;
    var open := LastEmpty(Choice(l, r));
    var mid := lo + 3 + Size(l);
    var hi := mid + 3 + Size(r);
    WfChoice(l, r);
    ChoiceUnfold(l, r, lo);
    ChoiceParts(code, lo, l, r);
    OpsNotPast();
    SizeIs(l);
    MidZero(code, l, r, mid);
    NotLast(l);
    NotLast(r);
    CodeZero(code, l, lo + 3);
    CodeZero(code, r, mid + 3);
    ZeroClosed(code, Instrs(l, lo + 3), mid, hi, open);
    if !r.Choice? {
      ZeroClosed(code, Instrs(r, mid + 3), hi, hi, open);
    }
    ZeroOther(code, lo, hi, open);
    ZeroUnion(code, {lo}, {mid}, hi, open);
    ZeroUnion(code, {lo} + {mid}, Instrs(l, lo + 3), hi, open);
    ZeroUnion(code, {lo} + {mid} + Instrs(l, lo + 3), Instrs(r, mid + 3), hi, open);
  }

  lemma MidZero(code: seq<byte>, l: Code, r: Code, mid: int)
    requires 0 <= mid < |code| && Decode(code, mid) == Go(mid + 3 + Past(r))
    ensures ZeroJumps(code, {mid}, mid + 3 + Size(r), LastEmpty(Choice(l, r)))
    ensures r.Choice? ==> LastEmpty(r) == LastEmpty(Choice(l, r))
  {
  }

  lemma OpsNotPast()
    ensures ON_FAILURE_JUMP != JUMP_PAST_ALT && DUMMY_FAILURE_JUMP != JUMP_PAST_ALT && MAYBE_POP_JUMP != JUMP_PAST_ALT
    ensures START_MEMORY != JUMP_PAST_ALT && STOP_MEMORY != JUMP_PAST_ALT && PUSH_DUMMY_FAILURE != JUMP_PAST_ALT
  {
  }

  lemma {:induction false} ItemZero(code: seq<byte>, t: Item, lo: int)
    requires WfItem(t) && Holds(code, lo, ItemBytes(t)) && |code| < SMALL
    ensures ZeroJumps(code, ItemInstrs(t, lo), 0, false)
    decreases t
  {
    match t
    case Run(cs) => AtRun(code, lo, cs);
    case Any => AtByte(code, lo, ANYCHAR);
    case Dummy => AtByte(code, lo, PUSH_DUMMY_FAILURE);
    case Loop(ops, b) => LoopZero(code, ops, b, lo);
    case Mem(reg, inner, c) => MemZero(code, reg, inner, c, lo);
  }

  lemma {:induction false} LoopZero(code: seq<byte>, ops: seq<byte>, b: Item, lo: int)
    requires WfItem(Loop(ops, b)) && Holds(code, lo, ItemBytes(Loop(ops, b))) && |code| < SMALL
    ensures ZeroJumps(code, ItemInstrs(Loop(ops, b), lo), 0, false)
    decreases Loop(ops, b), 0
  {
    hide *;
    OpsNotPast();
    var zero, many := ZeroOk(ops), ManyOk(ops);
    var head := lo + HeadSize(zero);
    var tail := head + 3 + ItemSize(b);
    WfLoop(ops, b);
    HeadSizes(zero);
    LoopUnfold(ops, b, lo);
    AtLoop(code, lo, zero, many, ItemBytes(b));
    ItemSizeIs(b);
    ItemZero(code, b, head + 3);
    ZeroOther(code, lo, 0, false);
    ZeroOther(code, head, 0, false);
    ZeroUnion(code, {lo}, {head}, 0, false);
    ZeroUnion(code, {lo} + {head}, ItemInstrs(b, head + 3), 0, false);
    ZeroNone(code);
    if many {
      ZeroOther(code, tail, 0, false);
    }
    ZeroUnion(code, {lo} + {head} + ItemInstrs(b, head + 3), if many then {tail} else {}, 0, false);
  }

  lemma ZeroNone(code: seq<byte>)
    ensures ZeroJumps(code, {}, 0, false)
  {
  }

  lemma {:induction false} MemZero(code: seq<byte>, reg: nat, inner: nat, c: Code, lo: int)
    requires Wf(c) && Holds(code, lo, ItemBytes(Mem(reg, inner, c))) && |code| < SMALL
    ensures ZeroJumps(code, ItemInstrs(Mem(reg, inner, c), lo), 0, false)
    decreases Mem(reg, inner, c), 0
  {
    hide *;
    OpsNotPast();
    var start := lo + MemSize(reg);
    var dummy := start + Size(c);
    var stop := dummy + DummySize(c);
    MemSizes(reg, inner, c);
    MemUnfold(reg, inner, c, lo);
    AtMem(code, lo, reg, inner, c.Choice?, Bytes(c));
    SizeIs(c);
    NotLast(c);
    CodeZero(code, c, start);
    ZeroInside(code, Instrs(c, start), dummy, LastEmpty(c));
    ZeroNone(code);
    if MemSize(reg) == 3 {
      ZeroOther(code, lo, 0, false);
      ZeroOther(code, stop, 0, false);
      ZeroUnion(code, {lo}, {stop}, 0, false);
    }
    if c.Choice? {
      ZeroOther(code, dummy, 0, false);
    }
    var memory, push := if MemSize(reg) == 3 then {lo} + {stop} else {}, if c.Choice? then {dummy} else {};
    ZeroUnion(code, memory, Instrs(c, start), 0, false);
    ZeroUnion(code, memory + Instrs(c, start), push, 0, false);
  }

  /** Inside a group a push_dummy_failure follows the alternatives. */
  lemma ZeroInside(code: seq<byte>, a: set<int>, hi: int, open: bool)
    requires ZeroJumps(code, a, hi, open) && (open ==> 0 <= hi < |code| && code[hi] == PUSH_DUMMY_FAILURE)
    ensures ZeroJumps(code, a, 0, false)
  {
  }
}
