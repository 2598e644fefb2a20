/**
 Compiled patterns: the byte code, its nondeterministic meaning, and the trees of code that
 regex_compile builds.
 */
module RegexCode {
  import opened Basics
  import opened RegexSyntax

  const EXACTN: byte := 1
  const ANYCHAR: byte := 2
  const START_MEMORY: byte := 5
  const STOP_MEMORY: byte := 6
  const JUMP_PAST_ALT: byte := 13
  const ON_FAILURE_JUMP: byte := 14
  const MAYBE_POP_JUMP: byte := 17
  const DUMMY_FAILURE_JUMP: byte := 18
  const PUSH_DUMMY_FAILURE: byte := 19
  const SUCCEED_N: byte := 20

  const MAX_REGNUM := 255

  // ----- Two-byte numbers -----

  /** STORE_NUMBER: `& 0377` and `>> 8`, stored in bytes. */
  function Low(n: int): byte {
    n % 256
  }

  function High(n: int): byte {
    n / 256 % 256
  }

  /** EXTRACT_NUMBER: the high byte is sign-extended. */
  function Extract(lo: byte, hi: byte): int {
    lo + 256 * (if hi < 128 then hi else hi - 256)
  }

  /** A number comes back exactly if it fits 16 bits with sign. */
  lemma NumberRoundTrip(n: int)
    ensures Extract(Low(n), High(n)) == n <==> -32768 <= n < 32768
  {
    var q := n / 256;
    assert n == 256 * q + Low(n);
    if -128 <= q < 0 {
      assert q == 256 * -1 + (q + 256);
      assert High(n) == q + 256;
    } else if 0 <= q < 128 {
      assert High(n) == q;
    }
  }

  function Jump(op: byte, n: int): (s: seq<byte>)
    ensures |s| == 3
  {
    [op, Low(n), High(n)]
  }

  // ----- Machine -----

  /** What the instruction at a place does: match characters, go on, or go on at either place. */
  datatype Instr = Chars(chars: seq<byte>, next: int) | One(next: int) | Go(next: int) | Fork(next: int, other: int) | Bad

  function JumpTarget(code: seq<byte>, pc: int): int
    requires 0 <= pc && pc + 3 <= |code|
  {
    pc + 3 + Extract(code[pc + 1], code[pc + 2])
  }

  function Decode(code: seq<byte>, pc: int): Instr
    requires 0 <= pc < |code|
  {
    var op := code[pc];
    if op == EXACTN then
      if pc + 1 < |code| && pc + 2 + code[pc + 1] <= |code|
      then Chars(code[pc + 2..pc + 2 + code[pc + 1]], pc + 2 + code[pc + 1]) else Bad
    else if op == ANYCHAR then One(pc + 1)
    else if op == PUSH_DUMMY_FAILURE then Go(pc + 1)
    else if op == START_MEMORY || op == STOP_MEMORY then Go(pc + 3)
    else if pc + 3 > |code| then Bad
    else if op == ON_FAILURE_JUMP then Fork(pc + 3, JumpTarget(code, pc))
    else if op == JUMP_PAST_ALT || op == MAYBE_POP_JUMP || op == DUMMY_FAILURE_JUMP then Go(JumpTarget(code, pc))
    else Bad
  }

  /** Some run of at most `n` instructions from `pc` consumes `w` from `i` on and ends at the
      end of the code. */
  ghost predicate Accepts(code: seq<byte>, w: seq<byte>, pc: int, i: nat, n: nat)
    decreases n
  {
    if pc == |code| then i == |w|
    else
      && n > 0 && 0 <= pc < |code|
      && match Decode(code, pc)
         case Chars(cs, next) => i + |cs| <= |w| && w[i..i + |cs|] == cs && Accepts(code, w, next, i + |cs|, n - 1)
         case One(next) => i < |w| && w[i] != 0 && Accepts(code, w, next, i + 1, n - 1)
         case Go(next) => Accepts(code, w, next, i, n - 1)
         case Fork(next, other) => Accepts(code, w, next, i, n - 1) || Accepts(code, w, other, i, n - 1)
         case Bad => false
  }

  ghost predicate Language(code: seq<byte>, w: seq<byte>) {
    exists n: nat :: Accepts(code, w, 0, 0, n)
  }

  // ----- Code trees -----

  datatype Code =
    | Nothing
    | Then(front: Code, item: Item)
    | Choice(left: Code, right: Code)

  datatype Item =
    | Run(chars: seq<byte>)
    | Any
    | Dummy
    | Loop(ops: seq<byte>, body: Item)
    | Mem(reg: nat, inner: nat, code: Code)

  predicate Wf(c: Code) {
    match c
    case Nothing => true
    case Then(front, item) => !front.Choice? && Wf(front) && WfItem(item)
    case Choice(left, right) => !left.Choice? && Wf(left) && Wf(right)
  }

  predicate WfItem(t: Item) {
    match t
    case Run(cs) => 0 < |cs| < 256
    case Any => true
    case Dummy => true
    case Loop(ops, b) => ops != [] && (forall o :: o in ops ==> IsRep(o)) && WfItem(b) && !b.Dummy? && (b.Run? ==> |b.chars| == 1)
    case Mem(_, _, c) => Wf(c)
  }

  function Memory(op: byte, reg: nat, inner: int): seq<byte> {
    if reg <= MAX_REGNUM then [op, reg, Low(inner)] else []
  }


  /** An alternative and the rest; the jump between them goes past `past` bytes of the rest. */
  function ChoiceBytes(l: seq<byte>, past: int, r: seq<byte>): seq<byte> {
    Jump(ON_FAILURE_JUMP, |l| + 3) + (l + (Jump(JUMP_PAST_ALT, past) + r))
  }

  /** The jump after an alternative goes to the next such jump, or past the last alternative. */
  function Bytes(c: Code): seq<byte> {
    match c
    case Nothing => []
    case Then(front, item) => Bytes(front) + ItemBytes(item)
    case Choice(left, right) =>
      ChoiceBytes(Bytes(left), if right.Choice? then |Bytes(right.left)| + 3 else |Bytes(right)|, Bytes(right))
  }

  function LoopBytes(zero: bool, many: bool, body: seq<byte>): seq<byte> {
    (if zero then [] else Jump(DUMMY_FAILURE_JUMP, 3)) +
    (Jump(ON_FAILURE_JUMP, if many then |body| + 3 else |body|) + body +
     if many then Jump(MAYBE_POP_JUMP, -(|body| + 6)) else [])
  }

  function MemBytes(reg: nat, inner: nat, choice: bool, body: seq<byte>): seq<byte> {
    Memory(START_MEMORY, reg, inner) + (body + ((if choice then [PUSH_DUMMY_FAILURE] else []) + Memory(STOP_MEMORY, reg, inner)))
  }

  function ItemBytes(t: Item): seq<byte> {
    match t
    case Run(cs) => [EXACTN, Low(|cs|)] + cs
    case Any => [ANYCHAR]
    case Dummy => [PUSH_DUMMY_FAILURE]
    case Loop(ops, b) => LoopBytes(ZeroOk(ops), ManyOk(ops), ItemBytes(b))
    case Mem(reg, inner, c) => MemBytes(reg, inner, c.Choice?, Bytes(c))
  }

  // ----- The regular expression of a tree -----

  function EraseRun(r: Regex, cs: seq<byte>): Regex {
    if cs == [] then r else Cat(EraseRun(r, cs[..|cs| - 1]), Lit(cs[|cs| - 1]))
  }

  function Erase(c: Code): Regex
    requires Wf(c)
  {
    match c
    case Nothing => Eps
    case Then(front, Run(cs)) => EraseRun(Erase(front), cs)
    case Then(front, Dummy) => Erase(front)
    case Then(front, item) => Cat(Erase(front), EraseItem(item))
    case Choice(left, right) => Alt(Erase(left), Erase(right))
  }

  function EraseItem(t: Item): Regex
    requires WfItem(t)
  {
    match t
    case Run(cs) => if |cs| == 1 then Lit(cs[0]) else EraseRun(Eps, cs)
    case Any => AnyChar
    case Dummy => Eps
    case Loop(ops, b) => Reps(ops, EraseItem(b))
    case Mem(_, _, c) => Erase(c)
  }
}
