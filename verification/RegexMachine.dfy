/**
 The code of a tree accepts exactly the language of its regular expression, wherever it is
 placed, as long as every jump fits its two bytes.
 */
module RegexMachine {
  import opened Basics
  import opened RegexSyntax
  import opened RegexCode

  const SMALL := 0x8000

  lemma JumpAt(code: seq<byte>, lo: int, op: byte, n: int)
    requires Holds(code, lo, Jump(op, n)) && -SMALL <= n < SMALL
    ensures lo + 3 <= |code| && code[lo] == op && JumpTarget(code, lo) == lo + 3 + n
  {
    HoldsAt(code, lo, Jump(op, n), 0);
    HoldsAt(code, lo, Jump(op, n), 1);
    HoldsAt(code, lo, Jump(op, n), 2);
    NumberRoundTrip(n);
  }

  lemma AtFork(code: seq<byte>, lo: int, n: int)
    requires Holds(code, lo, Jump(ON_FAILURE_JUMP, n)) && -SMALL <= n < SMALL
    ensures 0 <= lo && lo + 3 <= |code| && code[lo] == ON_FAILURE_JUMP && Decode(code, lo) == Fork(lo + 3, lo + 3 + n)
  {
    JumpAt(code, lo, ON_FAILURE_JUMP, n);
  }

  lemma AtGo(code: seq<byte>, lo: int, op: byte, n: int)
    requires Holds(code, lo, Jump(op, n)) && -SMALL <= n < SMALL
    requires op == JUMP_PAST_ALT || op == MAYBE_POP_JUMP || op == DUMMY_FAILURE_JUMP
    ensures 0 <= lo && lo + 3 <= |code| && code[lo] == op && Decode(code, lo) == Go(lo + 3 + n)
  {
    JumpAt(code, lo, op, n);
  }

  // ----- Where the pieces of a tree's code are -----

  lemma AtChoice(code: seq<byte>, lo: int, l: seq<byte>, past: int, r: seq<byte>)
    requires Holds(code, lo, ChoiceBytes(l, past, r)) && |code| < SMALL && 0 <= past <= |r|
    ensures var mid := lo + 3 + |l|;
      && 0 <= lo && |ChoiceBytes(l, past, r)| == 6 + |l| + |r| && mid + 3 + |r| <= |code|
      && Holds(code, lo + 3, l) && Holds(code, mid + 3, r)
      && Decode(code, lo) == Fork(lo + 3, mid + 3) && code[lo] == ON_FAILURE_JUMP
      && Decode(code, mid) == Go(mid + 3 + past) && code[mid] == JUMP_PAST_ALT
  {
    var a, c := Jump(ON_FAILURE_JUMP, |l| + 3), Jump(JUMP_PAST_ALT, past);
    HoldsSplit(code, lo, a, l + (c + r));
    HoldsSplit(code, lo + 3, l, c + r);
    HoldsSplit(code, lo + 3 + |l|, c, r);
    hide Holds, Decode, Jump;
    AtFork(code, lo, |l| + 3);
    AtGo(code, lo + 3 + |l|, JUMP_PAST_ALT, past);
  }

  function Past(r: Code): int {
    if r.Choice? then |Bytes(r.left)| + 3 else |Bytes(r)|
  }

  lemma ChoiceParts(code: seq<byte>, lo: int, l: Code, r: Code)
    requires Holds(code, lo, Bytes(Choice(l, r))) && |code| < SMALL
    ensures var mid := lo + 3 + |Bytes(l)|;
      && 0 <= lo && |Bytes(Choice(l, r))| == 6 + |Bytes(l)| + |Bytes(r)| && mid + 3 + |Bytes(r)| <= |code|
      && Holds(code, lo + 3, Bytes(l)) && Holds(code, mid + 3, Bytes(r))
      && Decode(code, lo) == Fork(lo + 3, mid + 3) && code[lo] == ON_FAILURE_JUMP
      && Decode(code, mid) == Go(mid + 3 + Past(r)) && code[mid] == JUMP_PAST_ALT
      && 0 <= Past(r) <= |Bytes(r)|
  {
    hide Holds, Decode, ChoiceBytes, ItemBytes;
    PastInside(r);
    AtChoice(code, lo, Bytes(l), Past(r), Bytes(r));
  }

  lemma PastInside(r: Code)
    ensures 0 <= Past(r) <= |Bytes(r)|
  {
  }

  lemma AtThen(code: seq<byte>, lo: int, front: Code, item: Item)
    requires Holds(code, lo, Bytes(Then(front, item)))
    ensures Holds(code, lo, Bytes(front)) && Holds(code, lo + |Bytes(front)|, ItemBytes(item))
    ensures |Bytes(Then(front, item))| == |Bytes(front)| + |ItemBytes(item)|
  {
    HoldsSplit(code, lo, Bytes(front), ItemBytes(item));
  }

  lemma AtRun(code: seq<byte>, lo: int, cs: seq<byte>)
    requires Holds(code, lo, ItemBytes(Run(cs))) && |cs| < 256
    ensures 0 <= lo < |code| && Decode(code, lo) == Chars(cs, lo + 2 + |cs|) && |ItemBytes(Run(cs))| == 2 + |cs|
    ensures code[lo] == EXACTN && (cs != [] ==> lo + 2 < |code| && code[lo + 2] == cs[0])
  {
    HoldsSplit(code, lo, [EXACTN, Low(|cs|)], cs);
    HoldsAt(code, lo, [EXACTN, Low(|cs|)], 0);
    HoldsAt(code, lo, [EXACTN, Low(|cs|)], 1);
    if cs != [] {
      HoldsAt(code, lo + 2, cs, 0);
    }
  }

  lemma AtByte(code: seq<byte>, lo: int, op: byte)
    requires Holds(code, lo, [op])
    ensures 0 <= lo < |code| && code[lo] == op
  {
    HoldsAt(code, lo, [op], 0);
  }

  function HeadSize(zero: bool): int {
    if zero then 0 else 3
  }

  lemma LoopSplit(code: seq<byte>, lo: int, zero: bool, many: bool, b: seq<byte>)
    requires Holds(code, lo, LoopBytes(zero, many, b))
    ensures var head := lo + HeadSize(zero);
      && |LoopBytes(zero, many, b)| == HeadSize(zero) + 3 + |b| + (if many then 3 else 0)
      && 0 <= lo && head + 3 + |b| <= |code|
      && (!zero ==> Holds(code, lo, Jump(DUMMY_FAILURE_JUMP, 3)))
      && Holds(code, head, Jump(ON_FAILURE_JUMP, if many then |b| + 3 else |b|)) && Holds(code, head + 3, b)
      && (many ==> Holds(code, head + 3 + |b|, Jump(MAYBE_POP_JUMP, -(|b| + 6))))
  {
    var d := if zero then [] else Jump(DUMMY_FAILURE_JUMP, 3);
    var o := Jump(ON_FAILURE_JUMP, if many then |b| + 3 else |b|);
    var t := if many then Jump(MAYBE_POP_JUMP, -(|b| + 6)) else [];
    HoldsSplit(code, lo, d, o + b + t);
    HoldsSplit(code, lo + |d|, o + b, t);
    HoldsSplit(code, lo + |d|, o, b);
  }

  /** A loop: `head` is its on_failure_jump. */
  lemma AtLoop(code: seq<byte>, lo: int, zero: bool, many: bool, b: seq<byte>)
    requires Holds(code, lo, LoopBytes(zero, many, b)) && |code| < SMALL
    ensures var head := lo + HeadSize(zero); var tail := head + 3 + |b|;
      && 0 <= lo && |LoopBytes(zero, many, b)| == HeadSize(zero) + 3 + |b| + (if many then 3 else 0)
      && (!zero ==> lo < |code| && Decode(code, lo) == Go(head + 3) && code[lo] == DUMMY_FAILURE_JUMP)
      && head < |code| && Decode(code, head) == Fork(head + 3, tail + if many then 3 else 0)
      && code[head] == ON_FAILURE_JUMP
      && Holds(code, head + 3, b)
      && (many ==> tail < |code| && Decode(code, tail) == Go(head) && code[tail] == MAYBE_POP_JUMP)
  {
    hide Holds, Decode, Jump, LoopBytes;
    LoopSplit(code, lo, zero, many, b);
    var o := lo + HeadSize(zero);
    if !zero {
      AtGo(code, lo, DUMMY_FAILURE_JUMP, 3);
    }
    AtFork(code, o, if many then |b| + 3 else |b|);
    if many {
      AtGo(code, o + 3 + |b|, MAYBE_POP_JUMP, -(|b| + 6));
    }
  }

  lemma AtMem(code: seq<byte>, lo: int, reg: nat, inner: nat, choice: bool, body: seq<byte>)
    requires Holds(code, lo, MemBytes(reg, inner, choice, body))
    ensures var start := lo + MemSize(reg);
      var stop := start + |body| + if choice then 1 else 0;
      && 0 <= lo && Holds(code, start, body) && stop + MemSize(reg) <= |code|
      && |MemBytes(reg, inner, choice, body)| == stop - lo + MemSize(reg)
      && (reg <= MAX_REGNUM ==> Decode(code, lo) == Go(start) && code[lo] == START_MEMORY)
      && (reg <= MAX_REGNUM ==> Decode(code, stop) == Go(stop + 3) && code[stop] == STOP_MEMORY)
      && (choice ==> Decode(code, stop - 1) == Go(stop) && code[stop - 1] == PUSH_DUMMY_FAILURE)
  {
    var a, b := Memory(START_MEMORY, reg, inner), Memory(STOP_MEMORY, reg, inner);
    var d := if choice then [PUSH_DUMMY_FAILURE] else [];
    HoldsSplit(code, lo, a, body + (d + b));
    HoldsSplit(code, lo + |a|, body, d + b);
    HoldsSplit(code, lo + |a| + |body|, d, b);
    if reg <= MAX_REGNUM {
      HoldsAt(code, lo, a, 0);
      HoldsAt(code, lo + |a| + |body| + |d|, b, 0);
    }
    if choice {
      HoldsAt(code, lo + |a| + |body|, d, 0);
    }
  }

  function MemSize(reg: nat): int {
    if reg <= MAX_REGNUM then 3 else 0
  }

  // ----- Meaning of sequences -----

  lemma Slices(w: seq<byte>, i: nat, j: nat, k: nat)
    requires i + k <= j <= |w|
    ensures w[i..j][..k] == w[i..i + k] && w[i..j][k..] == w[i + k..j]
  {
  }

  lemma CatIntro(a: Regex, b: Regex, s: seq<byte>, k: nat)
    requires k <= |s| && Matches(a, s[..k]) && Matches(b, s[k..])
    ensures Matches(Cat(a, b), s)
  {
  }

  lemma CatElim(a: Regex, b: Regex, s: seq<byte>) returns (k: nat)
    requires Matches(Cat(a, b), s)
    ensures k <= |s| && Matches(a, s[..k]) && Matches(b, s[k..])
  {
    k :| 0 <= k <= |s| && Matches(a, s[..k]) && Matches(b, s[k..]);
  }

  lemma LitOnly(c: byte, s: seq<byte>)
    ensures Matches(Lit(c), s) <==> s == [c]
  {
  }

  lemma Snoc(s: seq<byte>, k: nat, t: seq<byte>, front: seq<byte>, last: byte)
    requires k <= |s| && s[..k] == t + front && s[k..] == [last]
    ensures s == t + (front + [last])
  {
    assert s == s[..k] + s[k..];
  }

  lemma {:induction false} RunElim(r: Regex, cs: seq<byte>, s: seq<byte>) returns (t: seq<byte>)
    requires Matches(EraseRun(r, cs), s)
    ensures s == t + cs && Matches(r, t)
    decreases |cs|
  {
    if cs == [] {
      return s;
    }
    hide Matches;
    var front, last := cs[..|cs| - 1], cs[|cs| - 1];
    var k := CatElim(EraseRun(r, front), Lit(last), s);
    LitOnly(last, s[k..]);
    t := RunElim(r, front, s[..k]);
    Snoc(s, k, t, front, last);
    assert front + [last] == cs;
  }

  lemma {:induction false} RunIntro(r: Regex, t: seq<byte>, cs: seq<byte>)
    requires Matches(r, t)
    ensures Matches(EraseRun(r, cs), t + cs)
    decreases |cs|
  {
    if cs == [] {
      assert t + cs == t;
    } else {
      var front, last := cs[..|cs| - 1], cs[|cs| - 1];
      var s, k := t + cs, |t| + |front|;
      hide Matches;
      LitOnly(last, [last]);
      RunIntro(r, t, front);
      assert s[..k] == t + front && s[k..] == [last];
      CatIntro(EraseRun(r, front), Lit(last), s, k);
    }
  }

  lemma RunAlone(cs: seq<byte>, s: seq<byte>)
    requires 0 < |cs| < 256
    ensures Matches(EraseItem(Run(cs)), s) <==> s == cs
  {
    if |cs| > 1 {
      assert Matches(Eps, []);
      RunIntro(Eps, [], cs);
      assert [] + cs == cs;
      if Matches(EraseRun(Eps, cs), s) {
        var t := RunElim(Eps, cs, s);
      }
    }
  }

  lemma ThenIntro(front: Code, item: Item, s: seq<byte>, k: nat)
    requires Wf(Then(front, item)) && k <= |s| && Matches(Erase(front), s[..k]) && Matches(EraseItem(item), s[k..])
    ensures Matches(Erase(Then(front, item)), s)
  {
    hide Matches;
    match item
    case Run(cs) =>
      RunAlone(cs, s[k..]);
      RunIntro(Erase(front), s[..k], cs);
      assert s == s[..k] + s[k..];
    case Dummy =>
      EpsOnly(s[k..]);
      assert s[..k] == s;
    case _ =>
      CatIntro(Erase(front), EraseItem(item), s, k);
  }

  lemma ThenElim(front: Code, item: Item, s: seq<byte>) returns (k: nat)
    requires Wf(Then(front, item)) && Matches(Erase(Then(front, item)), s)
    ensures k <= |s| && Matches(Erase(front), s[..k]) && Matches(EraseItem(item), s[k..])
  {
    match item
    case Run(cs) =>
      var t := RunElim(Erase(front), cs, s);
      k := |t|;
      RunAlone(cs, s[k..]);
    case Dummy =>
      k := |s|;
      assert s[..k] == s;
    case _ =>
      k := CatElim(Erase(front), EraseItem(item), s);
  }

  // ----- Single steps -----

  lemma StepGo(code: seq<byte>, w: seq<byte>, pc: int, i: nat, n: nat, next: int) returns (m: nat)
    requires 0 <= pc < |code| && Decode(code, pc) == Go(next) && Accepts(code, w, pc, i, n)
    ensures m < n && Accepts(code, w, next, i, m)
  {
    m := n - 1;
  }

  lemma BackGo(code: seq<byte>, w: seq<byte>, pc: int, i: nat, m: nat, next: int)
    requires 0 <= pc < |code| && Decode(code, pc) == Go(next) && Accepts(code, w, next, i, m)
    ensures Accepts(code, w, pc, i, m + 1)
  {
  }

  lemma StepChars(code: seq<byte>, w: seq<byte>, pc: int, i: nat, n: nat, cs: seq<byte>)
    requires 0 <= pc < |code| && Decode(code, pc) == Chars(cs, pc + 2 + |cs|) && Accepts(code, w, pc, i, n)
    ensures n > 0 && i + |cs| <= |w| && w[i..i + |cs|] == cs && Accepts(code, w, pc + 2 + |cs|, i + |cs|, n - 1)
  {
  }

  lemma BackChars(code: seq<byte>, w: seq<byte>, pc: int, i: nat, m: nat, cs: seq<byte>)
    requires 0 <= pc < |code| && Decode(code, pc) == Chars(cs, pc + 2 + |cs|)
    requires i + |cs| <= |w| && w[i..i + |cs|] == cs && Accepts(code, w, pc + 2 + |cs|, i + |cs|, m)
    ensures Accepts(code, w, pc, i, m + 1)
  {
  }

  lemma StepOne(code: seq<byte>, w: seq<byte>, pc: int, i: nat, n: nat)
    requires 0 <= pc < |code| && Decode(code, pc) == One(pc + 1) && Accepts(code, w, pc, i, n)
    ensures n > 0 && i < |w| && w[i] != 0 && Accepts(code, w, pc + 1, i + 1, n - 1)
  {
  }

  lemma BackOne(code: seq<byte>, w: seq<byte>, pc: int, i: nat, m: nat)
    requires 0 <= pc < |code| && Decode(code, pc) == One(pc + 1) && i < |w| && w[i] != 0 && Accepts(code, w, pc + 1, i + 1, m)
    ensures Accepts(code, w, pc, i, m + 1)
  {
  }

  lemma StepFork(code: seq<byte>, w: seq<byte>, pc: int, i: nat, n: nat, next: int, other: int) returns (first: bool)
    requires 0 <= pc < |code| && Decode(code, pc) == Fork(next, other) && Accepts(code, w, pc, i, n)
    ensures n > 0 && Accepts(code, w, if first then next else other, i, n - 1)
  {
    first := Accepts(code, w, next, i, n - 1);
  }

  lemma BackFork(code: seq<byte>, w: seq<byte>, pc: int, i: nat, m: nat, next: int, other: int)
    requires 0 <= pc < |code| && Decode(code, pc) == Fork(next, other)
    requires Accepts(code, w, next, i, m) || Accepts(code, w, other, i, m)
    ensures Accepts(code, w, pc, i, m + 1)
  {
  }

  lemma EpsEmpty()
    ensures Matches(Eps, [])
  {
  }

  lemma OneMatches(s: seq<byte>)
    requires |s| == 1 && s[0] != 0
    ensures Matches(AnyChar, s)
  {
  }

  lemma AltIntro(a: Regex, b: Regex, s: seq<byte>)
    requires Matches(a, s) || Matches(b, s)
    ensures Matches(Alt(a, b), s)
  {
  }

  /** The jump after an alternative ends up past the whole choice. */
  lemma {:induction false} JumpOut(code: seq<byte>, lo: int, l: Code, r: Code, w: seq<byte>, i: nat, n: nat) returns (m: nat)
    requires Holds(code, lo, Bytes(Choice(l, r))) && |code| < SMALL && Accepts(code, w, lo + 3 + |Bytes(l)|, i, n)
    ensures m < n && Accepts(code, w, lo + |Bytes(Choice(l, r))|, i, m)
    decreases r
  {
    hide Accepts, Bytes, Decode, Holds;
    ChoiceParts(code, lo, l, r);
    var mid := lo + 3 + |Bytes(l)|;
    m := StepGo(code, w, mid, i, n, mid + 3 + Past(r));
    if r.Choice? {
      m := JumpOut(code, mid + 3, r.left, r.right, w, i, m);
    }
  }

  lemma {:induction false} JumpIn(code: seq<byte>, lo: int, l: Code, r: Code, w: seq<byte>, i: nat, m: nat) returns (n: nat)
    requires Holds(code, lo, Bytes(Choice(l, r))) && |code| < SMALL && Accepts(code, w, lo + |Bytes(Choice(l, r))|, i, m)
    ensures Accepts(code, w, lo + 3 + |Bytes(l)|, i, n)
    decreases r
  {
    hide Accepts, Bytes, Decode, Holds;
    ChoiceParts(code, lo, l, r);
    var mid := lo + 3 + |Bytes(l)|;
    n := m;
    if r.Choice? {
      n := JumpIn(code, mid + 3, r.left, r.right, w, i, m);
    }
    BackGo(code, w, mid, i, n, mid + 3 + Past(r));
    n := n + 1;
  }

  // ----- Every run through the code of a tree consumes a word of its language -----

  lemma {:induction false} SoundCode(code: seq<byte>, lo: int, c: Code, w: seq<byte>, i: nat, n: nat) returns (j: nat, m: nat)
    requires Wf(c) && Holds(code, lo, Bytes(c)) && |code| < SMALL && i <= |w| && Accepts(code, w, lo, i, n)
    ensures i <= j <= |w| && m <= n && Matches(Erase(c), w[i..j]) && Accepts(code, w, lo + |Bytes(c)|, j, m)
    decreases n, c, 0, 1
  {
    hide Accepts, Matches, ItemBytes, ChoiceBytes, Holds;
    match c
    case Nothing =>
      j, m := i, n;
      EpsEmpty();
      assert w[i..i] == [];
    case Then(front, item) =>
      AtThen(code, lo, front, item);
      hide Bytes, Erase;
      var k, n' := SoundCode(code, lo, front, w, i, n);
      j, m := SoundItem(code, lo + |Bytes(front)|, item, w, k, n');
      Slices(w, i, j, k - i);
      ThenIntro(front, item, w[i..j], k - i);
    case Choice(l, r) =>
      hide Bytes;
      j, m := SoundChoice(code, lo, l, r, w, i, n);
  }

  lemma {:induction false} SoundChoice(code: seq<byte>, lo: int, l: Code, r: Code, w: seq<byte>, i: nat, n: nat) returns (j: nat, m: nat)
    requires Wf(l) && Wf(r) && Holds(code, lo, Bytes(Choice(l, r))) && |code| < SMALL && i <= |w| && Accepts(code, w, lo, i, n)
    ensures i <= j <= |w| && m <= n && Matches(Alt(Erase(l), Erase(r)), w[i..j]) && Accepts(code, w, lo + |Bytes(Choice(l, r))|, j, m)
    decreases n, Choice(l, r), 0, 0
  {
    hide Accepts, Matches, Bytes, Erase, Decode, Holds, Wf;
    ChoiceParts(code, lo, l, r);
    var mid := lo + 3 + |Bytes(l)|;
    var left := StepFork(code, w, lo, i, n, lo + 3, mid + 3);
    if left {
      j, m := SoundCode(code, lo + 3, l, w, i, n - 1);
      m := JumpOut(code, lo, l, r, w, j, m);
    } else {
      j, m := SoundCode(code, mid + 3, r, w, i, n - 1);
    }
    AltIntro(Erase(l), Erase(r), w[i..j]);
  }

  lemma {:induction false} SoundItem(code: seq<byte>, lo: int, t: Item, w: seq<byte>, i: nat, n: nat) returns (j: nat, m: nat)
    requires WfItem(t) && Holds(code, lo, ItemBytes(t)) && |code| < SMALL && i <= |w| && Accepts(code, w, lo, i, n)
    ensures i <= j <= |w| && m <= n && Matches(EraseItem(t), w[i..j]) && Accepts(code, w, lo + |ItemBytes(t)|, j, m)
    decreases n, t, 0
  {
    hide Accepts, Matches, LoopBytes, MemBytes, Bytes, Erase, Holds;
    match t
    case Run(cs) =>
      AtRun(code, lo, cs);
      hide Decode, EraseItem, ItemBytes;
      StepChars(code, w, lo, i, n, cs);
      j, m := i + |cs|, n - 1;
      RunAlone(cs, w[i..j]);
    case Any =>
      AtByte(code, lo, ANYCHAR);
      assert Decode(code, lo) == One(lo + 1);
      hide Decode;
      StepOne(code, w, lo, i, n);
      j, m := i + 1, n - 1;
      OneMatches(w[i..j]);
    case Dummy =>
      AtByte(code, lo, PUSH_DUMMY_FAILURE);
      assert Decode(code, lo) == Go(lo + 1);
      hide Decode;
      j := i;
      m := StepGo(code, w, lo, i, n, lo + 1);
      EpsEmpty();
      assert w[i..i] == [];
    case Loop(ops, b) =>
      j, m := SoundRep(code, lo, ops, b, w, i, n);
    case Mem(reg, inner, c) =>
      j, m := SoundMem(code, lo, reg, inner, c, w, i, n);
  }

  lemma {:induction false} SoundRep(code: seq<byte>, lo: int, ops: seq<byte>, b: Item, w: seq<byte>, i: nat, n: nat) returns (j: nat, m: nat)
    requires WfItem(Loop(ops, b)) && |code| < SMALL && i <= |w| && Accepts(code, w, lo, i, n)
    requires Holds(code, lo, LoopBytes(ZeroOk(ops), ManyOk(ops), ItemBytes(b)))
    ensures i <= j <= |w| && m <= n && Matches(Reps(ops, EraseItem(b)), w[i..j])
    ensures Accepts(code, w, lo + |LoopBytes(ZeroOk(ops), ManyOk(ops), ItemBytes(b))|, j, m)
    decreases n, b, 3
  {
    hide Accepts, Matches, LoopBytes, Holds, Decode, ItemBytes, EraseItem;
    var z, many := ZeroOk(ops), ManyOk(ops);
    AtLoop(code, lo, z, many, ItemBytes(b));
    OpsKind(ops);
    if z {
      j, m := SoundLoop(code, lo, many, b, w, i, n);
    } else {
      m := StepGo(code, w, lo, i, n, lo + 6);
      j, m := SoundIterate(code, lo + 3, b, w, i, m);
    }
    Collapse(ops, EraseItem(b), w[i..j]);
  }

  lemma {:induction false} SoundMem(code: seq<byte>, lo: int, reg: nat, inner: nat, c: Code, w: seq<byte>, i: nat, n: nat)
    returns (j: nat, m: nat)
    requires Wf(c) && Holds(code, lo, MemBytes(reg, inner, c.Choice?, Bytes(c))) && |code| < SMALL && i <= |w| && Accepts(code, w, lo, i, n)
    ensures i <= j <= |w| && m <= n && Matches(Erase(c), w[i..j])
    ensures Accepts(code, w, lo + |MemBytes(reg, inner, c.Choice?, Bytes(c))|, j, m)
    decreases n, c, 1
  {
    hide Accepts, Matches, MemBytes, Bytes, Erase, Holds, Decode;
    AtMem(code, lo, reg, inner, c.Choice?, Bytes(c));
    var start := lo + MemSize(reg);
    m := n;
    if reg <= MAX_REGNUM {
      m := StepGo(code, w, lo, i, m, start);
    }
    j, m := SoundCode(code, start, c, w, i, m);
    var stop := start + |Bytes(c)|;
    if c.Choice? {
      stop := stop + 1;
      m := StepGo(code, w, stop - 1, j, m, stop);
    }
    if reg <= MAX_REGNUM {
      m := StepGo(code, w, stop, j, m, stop + 3);
    }
  }

  lemma OpsKind(ops: seq<byte>)
    requires ops != [] && forall o :: o in ops ==> IsRep(o)
    ensures ZeroOk(ops) || ManyOk(ops)
  {
    assert ops[0] in ops;
  }

  /** A loop whose on_failure_jump is at `head`. */
  ghost predicate LoopAt(code: seq<byte>, head: int, many: bool, b: Item) {
    var tail := head + 3 + |ItemBytes(b)|;
    && 0 <= head < |code| && Decode(code, head) == Fork(head + 3, tail + if many then 3 else 0)
    && Holds(code, head + 3, ItemBytes(b))
    && (many ==> tail < |code| && Decode(code, tail) == Go(head))
  }

  lemma RepPrepend(z: bool, r: Regex, s: seq<byte>, k: nat)
    requires k <= |s| && Matches(r, s[..k]) && Matches(Rep(true, true, r), s[k..])
    ensures Matches(Rep(z, true, r), s)
  {
    hide Matches;
    var ps := RepElim(true, true, r, s[k..]);
    var qs := [s[..k]] + ps;
    assert qs[1..] == ps && s == s[..k] + s[k..] && Flat(qs) == s;
    RepIntro(z, true, r, qs);
  }

  lemma RepZero(many: bool, r: Regex)
    ensures Matches(Rep(true, many, r), [])
  {
    RepIntro(true, many, r, []);
  }

  lemma RepSome(many: bool, r: Regex, s: seq<byte>)
    requires Matches(r, s) || Matches(Rep(false, many, r), s)
    ensures Matches(Rep(true, many, r), s)
  {
    hide Matches;
    if Matches(r, s) {
      FlatOne(s);
      RepIntro(true, many, r, [s]);
    } else {
      var ps := RepElim(false, many, r, s);
      RepIntro(true, many, r, ps);
    }
  }

  lemma {:induction false} SoundLoop(code: seq<byte>, head: int, many: bool, b: Item, w: seq<byte>, i: nat, n: nat) returns (j: nat, m: nat)
    requires WfItem(b) && LoopAt(code, head, many, b) && |code| < SMALL && i <= |w| && Accepts(code, w, head, i, n)
    ensures i <= j <= |w| && m <= n && Matches(Rep(true, many, EraseItem(b)), w[i..j])
    ensures Accepts(code, w, head + 3 + |ItemBytes(b)| + if many then 3 else 0, j, m)
    decreases n, b, 2
  {
    hide Accepts, Matches, ItemBytes, EraseItem, Decode, Holds;
    var tail := head + 3 + |ItemBytes(b)|;
    var enter := StepFork(code, w, head, i, n, head + 3, tail + if many then 3 else 0);
    if !enter {
      j, m := i, n - 1;
      RepZero(many, EraseItem(b));
      assert w[i..i] == [];
    } else {
      if many {
        j, m := SoundIterate(code, head, b, w, i, n - 1);
      } else {
        j, m := SoundItem(code, head + 3, b, w, i, n - 1);
      }
      RepSome(many, EraseItem(b), w[i..j]);
    }
  }

  /** From the start of the body: once, then any number of times. */
  lemma {:induction false} SoundIterate(code: seq<byte>, head: int, b: Item, w: seq<byte>, i: nat, n: nat) returns (j: nat, m: nat)
    requires WfItem(b) && LoopAt(code, head, true, b) && |code| < SMALL && i <= |w| && Accepts(code, w, head + 3, i, n)
    ensures i <= j <= |w| && m <= n && Matches(Rep(false, true, EraseItem(b)), w[i..j])
    ensures Accepts(code, w, head + 6 + |ItemBytes(b)|, j, m)
    decreases n, b, 1
  {
    hide Accepts, Matches, ItemBytes, EraseItem, Decode, Holds;
    var tail := head + 3 + |ItemBytes(b)|;
    var k, n' := SoundItem(code, head + 3, b, w, i, n);
    m := StepGo(code, w, tail, k, n', head);
    j, m := SoundLoop(code, head, true, b, w, k, m);
    Slices(w, i, j, k - i);
    RepPrepend(false, EraseItem(b), w[i..j], k - i);
  }

  // ----- Every word of its language is consumed by some run through the code of a tree -----

  lemma {:induction false} CompleteCode(code: seq<byte>, lo: int, c: Code, w: seq<byte>, i: nat, j: nat, m: nat) returns (n: nat)
    requires Wf(c) && Holds(code, lo, Bytes(c)) && |code| < SMALL && i <= j <= |w|
    requires Matches(Erase(c), w[i..j]) && Accepts(code, w, lo + |Bytes(c)|, j, m)
    ensures Accepts(code, w, lo, i, n)
    decreases c, 0, 1
  {
    hide Accepts, Matches, ItemBytes, ChoiceBytes, Holds;
    match c
    case Nothing =>
      EpsOnly(w[i..j]);
      n := m;
    case Then(front, item) =>
      AtThen(code, lo, front, item);
      hide Bytes, Erase;
      var k := ThenElim(front, item, w[i..j]);
      Slices(w, i, j, k);
      n := CompleteItem(code, lo + |Bytes(front)|, item, w, i + k, j, m);
      n := CompleteCode(code, lo, front, w, i, i + k, n);
    case Choice(l, r) =>
      hide Bytes;
      n := CompleteChoice(code, lo, l, r, w, i, j, m);
  }

  lemma {:induction false} CompleteChoice(code: seq<byte>, lo: int, l: Code, r: Code, w: seq<byte>, i: nat, j: nat, m: nat) returns (n: nat)
    requires Wf(l) && Wf(r) && Holds(code, lo, Bytes(Choice(l, r))) && |code| < SMALL && i <= j <= |w|
    requires Matches(Alt(Erase(l), Erase(r)), w[i..j]) && Accepts(code, w, lo + |Bytes(Choice(l, r))|, j, m)
    ensures Accepts(code, w, lo, i, n)
    decreases Choice(l, r), 0, 0
  {
    hide Accepts, Matches, Bytes, Erase, Decode, Holds, Wf;
    ChoiceParts(code, lo, l, r);
    var mid := lo + 3 + |Bytes(l)|;
    if AltElim(Erase(l), Erase(r), w[i..j]) {
      n := JumpIn(code, lo, l, r, w, j, m);
      n := CompleteCode(code, lo + 3, l, w, i, j, n);
    } else {
      n := CompleteCode(code, mid + 3, r, w, i, j, m);
    }
    BackFork(code, w, lo, i, n, lo + 3, mid + 3);
    n := n + 1;
  }

  lemma EpsOnly(s: seq<byte>)
    requires Matches(Eps, s)
    ensures s == []
  {
  }

  ghost function AltElim(a: Regex, b: Regex, s: seq<byte>): (first: bool)
    requires Matches(Alt(a, b), s)
    ensures Matches(if first then a else b, s)
  {
    Matches(a, s)
  }

  lemma {:induction false} CompleteItem(code: seq<byte>, lo: int, t: Item, w: seq<byte>, i: nat, j: nat, m: nat) returns (n: nat)
    requires WfItem(t) && Holds(code, lo, ItemBytes(t)) && |code| < SMALL && i <= j <= |w|
    requires Matches(EraseItem(t), w[i..j]) && Accepts(code, w, lo + |ItemBytes(t)|, j, m)
    ensures Accepts(code, w, lo, i, n)
    decreases t, 0
  {
    hide Accepts, Matches, LoopBytes, MemBytes, Bytes, Erase, Holds;
    n := m + 1;
    match t
    case Run(cs) =>
      AtRun(code, lo, cs);
      hide Decode, EraseItem, ItemBytes;
      RunAlone(cs, w[i..j]);
      BackChars(code, w, lo, i, m, cs);
    case Any =>
      AtByte(code, lo, ANYCHAR);
      assert Decode(code, lo) == One(lo + 1);
      hide Decode;
      OneOnly(w[i..j]);
      BackOne(code, w, lo, i, m);
    case Dummy =>
      AtByte(code, lo, PUSH_DUMMY_FAILURE);
      assert Decode(code, lo) == Go(lo + 1);
      hide Decode;
      EpsOnly(w[i..j]);
      BackGo(code, w, lo, i, m, lo + 1);
    case Loop(ops, b) =>
      n := CompleteRep(code, lo, ops, b, w, i, j, m);
    case Mem(reg, inner, c) =>
      n := CompleteMem(code, lo, reg, inner, c, w, i, j, m);
  }

  lemma {:induction false} CompleteRep(code: seq<byte>, lo: int, ops: seq<byte>, b: Item, w: seq<byte>, i: nat, j: nat, m: nat)
    returns (n: nat)
    requires WfItem(Loop(ops, b)) && |code| < SMALL && i <= j <= |w|
    requires var bytes := LoopBytes(ZeroOk(ops), ManyOk(ops), ItemBytes(b));
      Holds(code, lo, bytes) && Accepts(code, w, lo + |bytes|, j, m)
    requires Matches(Reps(ops, EraseItem(b)), w[i..j])
    ensures Accepts(code, w, lo, i, n)
    decreases b, 2
  {
    hide Accepts, Matches, LoopBytes, Holds, Decode, ItemBytes, EraseItem;
    var z, many := ZeroOk(ops), ManyOk(ops);
    AtLoop(code, lo, z, many, ItemBytes(b));
    OpsKind(ops);
    Collapse(ops, EraseItem(b), w[i..j]);
    var ps := RepElim(z, many, EraseItem(b), w[i..j]);
    if z {
      n := CompleteLoop(code, lo, many, b, w, i, ps, m);
    } else {
      n := CompleteIterate(code, lo + 3, many, b, w, i, ps, m);
      BackGo(code, w, lo, i, n, lo + 6);
      n := n + 1;
    }
  }

  lemma OneOnly(s: seq<byte>)
    requires Matches(AnyChar, s)
    ensures |s| == 1 && s[0] != 0
  {
  }

  lemma {:induction false} CompleteMem(code: seq<byte>, lo: int, reg: nat, inner: nat, c: Code, w: seq<byte>, i: nat, j: nat, m: nat)
    returns (n: nat)
    requires Wf(c) && Holds(code, lo, MemBytes(reg, inner, c.Choice?, Bytes(c))) && |code| < SMALL && i <= j <= |w|
    requires Matches(Erase(c), w[i..j]) && Accepts(code, w, lo + |MemBytes(reg, inner, c.Choice?, Bytes(c))|, j, m)
    ensures Accepts(code, w, lo, i, n)
    decreases c, 1
  {
    hide Accepts, Matches, MemBytes, Bytes, Erase, Holds, Decode;
    AtMem(code, lo, reg, inner, c.Choice?, Bytes(c));
    var start := lo + MemSize(reg);
    var stop := start + |Bytes(c)| + if c.Choice? then 1 else 0;
    n := m;
    if reg <= MAX_REGNUM {
      BackGo(code, w, stop, j, n, stop + 3);
      n := n + 1;
    }
    if c.Choice? {
      BackGo(code, w, stop - 1, j, n, stop);
      n := n + 1;
    }
    n := CompleteCode(code, start, c, w, i, j, n);
    if reg <= MAX_REGNUM {
      BackGo(code, w, lo, i, n, start);
      n := n + 1;
    }
  }

  /** From the on_failure_jump, any number of pieces that the loop allows. */
  lemma {:induction false} CompleteLoop(code: seq<byte>, head: int, many: bool, b: Item, w: seq<byte>, i: nat, ps: seq<seq<byte>>, m: nat)
    returns (n: nat)
    requires WfItem(b) && LoopAt(code, head, many, b) && |code| < SMALL && i + |Flat(ps)| <= |w| && Flat(ps) == w[i..i + |Flat(ps)|]
    requires Pieces(EraseItem(b), ps) && Allowed(true, many, |ps|)
    requires Accepts(code, w, head + 3 + |ItemBytes(b)| + if many then 3 else 0, i + |Flat(ps)|, m)
    ensures Accepts(code, w, head, i, n)
    decreases b, 1, |ps|, 1
  {
    hide Accepts, Matches, ItemBytes, EraseItem, Decode, Holds;
    n := m;
    if ps != [] {
      n := CompleteIterate(code, head, many, b, w, i, ps, m);
    }
    BackFork(code, w, head, i, n, head + 3, head + 3 + |ItemBytes(b)| + if many then 3 else 0);
    n := n + 1;
  }

  /** From the start of the body, one piece or more. */
  lemma {:induction false} CompleteIterate(code: seq<byte>, head: int, many: bool, b: Item, w: seq<byte>, i: nat, ps: seq<seq<byte>>, m: nat)
    returns (n: nat)
    requires WfItem(b) && LoopAt(code, head, many, b) && |code| < SMALL && i + |Flat(ps)| <= |w| && Flat(ps) == w[i..i + |Flat(ps)|]
    requires Pieces(EraseItem(b), ps) && Allowed(false, many, |ps|)
    requires Accepts(code, w, head + 3 + |ItemBytes(b)| + if many then 3 else 0, i + |Flat(ps)|, m)
    ensures Accepts(code, w, head + 3, i, n)
    decreases b, 1, |ps|, 0
  {
    hide Accepts, Matches, ItemBytes, EraseItem, Decode, Holds;
    var k := i + |ps[0]|;
    FlatHead(ps, w, i);
    assert ps[0] in ps && Pieces(EraseItem(b), ps[1..]);
    var tail := head + 3 + |ItemBytes(b)|;
    n := m;
    if many {
      n := CompleteLoop(code, head, many, b, w, k, ps[1..], m);
      BackGo(code, w, tail, k, n, head);
      n := n + 1;
    }
    n := CompleteItem(code, head + 3, b, w, i, k, n);
  }

  lemma FlatHead(ps: seq<seq<byte>>, w: seq<byte>, i: nat)
    requires ps != [] && i + |Flat(ps)| <= |w| && Flat(ps) == w[i..i + |Flat(ps)|]
    ensures var k := i + |ps[0]|;
      && k + |Flat(ps[1..])| == i + |Flat(ps)| && w[i..k] == ps[0] && w[k..k + |Flat(ps[1..])|] == Flat(ps[1..])
  {
    HoldsSplit(w, i, ps[0], Flat(ps[1..]));
  }

  // ----- The main result -----

  /** The code of a tree accepts exactly the language of its regular expression. */
  lemma CodeLanguage(c: Code, w: seq<byte>)
    requires Wf(c) && |Bytes(c)| < SMALL
    ensures Language(Bytes(c), w) <==> Matches(Erase(c), w)
  {
    hide Bytes, Erase, Matches, Accepts, Holds;
    HoldsWhole(Bytes(c));
    if Language(Bytes(c), w) {
      var n: nat :| Accepts(Bytes(c), w, 0, 0, n);
      SoundWhole(Bytes(c), c, w, n);
    }
    if Matches(Erase(c), w) {
      EndAccepts(Bytes(c), w);
      assert w[0..|w|] == w;
      var n := CompleteCode(Bytes(c), 0, c, w, 0, |w|, 0);
    }
  }

  lemma HoldsWhole(code: seq<byte>)
    ensures Holds(code, 0, code)
  {
  }

  lemma EndAccepts(code: seq<byte>, w: seq<byte>)
    ensures Accepts(code, w, |code|, |w|, 0)
  {
  }

  lemma EndOnly(code: seq<byte>, w: seq<byte>, j: nat, m: nat)
    requires Accepts(code, w, |code|, j, m)
    ensures j == |w|
  {
  }

  lemma SoundWhole(code: seq<byte>, c: Code, w: seq<byte>, n: nat)
    requires Wf(c) && Holds(code, 0, Bytes(c)) && |code| == |Bytes(c)| < SMALL && Accepts(code, w, 0, 0, n)
    ensures Matches(Erase(c), w)
  {
    hide Bytes, Erase, Matches, Accepts, Holds;
    var j, m := SoundCode(code, 0, c, w, 0, n);
    EndOnly(code, w, j, m);
    assert w[0..|w|] == w;
  }
}
