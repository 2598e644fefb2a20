/**
 regex_compile of lib/GNUregex.c: one pass over the pattern that inserts jumps into code
 already emitted and fills in the jumps past alternatives later.
 */
module RegexCompile {
  import opened Basics
  import opened RegexSyntax
  import opened RegexCode
  import opened RegexMachine

  const MAX_BUF_SIZE := 65536

  datatype Error = NoError | EParen | ESize

  /** compile_stack_elt_t. */
  datatype Saved = Saved(begalt: nat, fixup: Option<nat>, laststart: nat, regnum: nat, inner: nat)

  // ----- What the buffer holds in the middle of a pattern -----

  /** An open group: its complete alternatives, the one in progress, and the three bytes left
      for the jump after the last complete one. */
  datatype Frame = Frame(alts: seq<Code>, cur: Code, slot: seq<byte>)

  datatype State = Bottom(top: Frame) | Inside(outer: State, reg: nat, top: Frame)

  predicate Straight(c: Code) {
    Wf(c) && !c.Choice?
  }

  predicate WfFrame(f: Frame) {
    (forall a :: a in f.alts ==> Straight(a)) && Straight(f.cur) && |f.slot| == 3
  }

  predicate WfState(st: State) {
    WfFrame(st.top) && (st.Inside? ==> WfState(st.outer))
  }

  function OpenBytes(alts: seq<Code>, slot: seq<byte>): seq<byte> {
    if alts == [] then []
    else Jump(ON_FAILURE_JUMP, |Bytes(alts[0])| + 3) +
         (Bytes(alts[0]) + ((if |alts| == 1 then slot else Jump(JUMP_PAST_ALT, |Bytes(alts[1])| + 3)) + OpenBytes(alts[1..], slot)))
  }

  function FrameBytes(f: Frame): seq<byte> {
    OpenBytes(f.alts, f.slot) + Bytes(f.cur)
  }

  function Prefix(st: State): seq<byte>
    decreases st, 0
  {
    if st.Bottom? then [] else StateBytes(st.outer) + Memory(START_MEMORY, st.reg, 0)
  }

  function StateBytes(st: State): seq<byte>
    decreases st, 1
  {
    Prefix(st) + FrameBytes(st.top)
  }

  function Begalt(st: State): nat {
    |Prefix(st)| + |OpenBytes(st.top.alts, st.top.slot)|
  }

  ghost predicate IsFixup(st: State, fixup: Option<nat>) {
    if st.top.alts == [] then fixup == None else fixup.Some? && fixup.value + 3 == Begalt(st)
  }

  ghost predicate StackOk(st: State, stack: seq<Saved>)
    decreases st
  {
    if st.Bottom? then stack == []
    else
      && stack != []
      && var s := stack[|stack| - 1];
      && s.begalt == Begalt(st.outer) && IsFixup(st.outer, s.fixup) && s.laststart == |StateBytes(st.outer)| && s.regnum == st.reg
      && s.inner == s.laststart + 2
      && StackOk(st.outer, stack[..|stack| - 1])
  }

  function ChoiceOf(alts: seq<Code>, last: Code): Code {
    if alts == [] then last else Choice(alts[0], ChoiceOf(alts[1..], last))
  }

  // ----- The parse it stands for -----

  function EraseAll(alts: seq<Code>): seq<Regex>
    requires forall a :: a in alts ==> Straight(a)
  {
    if alts == [] then [] else
      assert Straight(alts[0]);
      [Erase(alts[0])] + EraseAll(alts[1..])
  }

  function EraseFrame(f: Frame): Open
    requires WfFrame(f)
  {
    Open.Open(EraseAll(f.alts), Erase(f.cur))
  }

  function EraseState(st: State): Parse
    requires WfState(st)
  {
    if st.Bottom? then Outermost(EraseFrame(st.top)) else Within(EraseState(st.outer), EraseFrame(st.top))
  }

  lemma {:induction false} EraseSnoc(alts: seq<Code>, a: Code)
    requires Straight(a) && forall x :: x in alts ==> Straight(x)
    ensures EraseAll(alts + [a]) == EraseAll(alts) + [Erase(a)]
  {
    if alts == [] {
      assert alts + [a] == [a] && [a][1..] == [];
    } else {
      assert (alts + [a])[0] == alts[0] && (alts + [a])[1..] == alts[1..] + [a];
      EraseSnoc(alts[1..], a);
    }
  }

  lemma {:induction false} ChoiceErase(alts: seq<Code>, last: Code)
    requires Straight(last) && forall x :: x in alts ==> Straight(x)
    ensures Wf(ChoiceOf(alts, last)) && Erase(ChoiceOf(alts, last)) == AltOf(EraseAll(alts), Erase(last))
    ensures ChoiceOf(alts, last).Choice? <==> alts != []
  {
    if alts != [] {
      ChoiceErase(alts[1..], last);
      assert alts[0] in alts;
    }
  }

  // ----- Alternatives -----

  /** The slot comes last, and nothing before it depends on what it holds. */
  lemma {:induction false} SlotLast(alts: seq<Code>, slot: seq<byte>, slot': seq<byte>)
    requires alts != [] && |slot| == |slot'| == 3
    ensures |OpenBytes(alts, slot)| == |OpenBytes(alts, slot')| >= 3
    ensures OpenBytes(alts, slot') == OpenBytes(alts, slot)[..|OpenBytes(alts, slot)| - 3] + slot'
    ensures OpenBytes(alts, slot)[|OpenBytes(alts, slot)| - 3..] == slot
  {
    if |alts| == 1 {
      assert alts[1..] == [];
      SlotOne(Jump(ON_FAILURE_JUMP, |Bytes(alts[0])| + 3), Bytes(alts[0]), slot, slot');
    } else {
      hide Bytes;
      SlotLast(alts[1..], slot, slot');
      SlotMore(Jump(ON_FAILURE_JUMP, |Bytes(alts[0])| + 3), Bytes(alts[0]), Jump(JUMP_PAST_ALT, |Bytes(alts[1])| + 3),
        OpenBytes(alts[1..], slot), OpenBytes(alts[1..], slot'), slot, slot');
    }
  }

  lemma SlotOne(a: seq<byte>, b: seq<byte>, slot: seq<byte>, slot': seq<byte>)
    requires |slot| == |slot'| == 3
    ensures var s, s' := a + (b + (slot + [])), a + (b + (slot' + []));
      |s| == |s'| >= 3 && s' == s[..|s| - 3] + slot' && s[|s| - 3..] == slot
  {
  }

  lemma SlotMore(a: seq<byte>, b: seq<byte>, c: seq<byte>, x: seq<byte>, x': seq<byte>, slot: seq<byte>, slot': seq<byte>)
    requires |slot| == |slot'| == 3 && |x| == |x'| >= 3 && x' == x[..|x| - 3] + slot' && x[|x| - 3..] == slot
    ensures var s, s' := a + (b + (c + x)), a + (b + (c + x'));
      |s| == |s'| >= 3 && s' == s[..|s| - 3] + slot' && s[|s| - 3..] == slot
  {
    var s := a + (b + (c + x));
    assert s[..|s| - 3] == a + (b + (c + x[..|x| - 3]));
  }

  /** A `|`: the jump to the next alternative is inserted before this one and the slot of the
      alternative before jumps to the new slot. */
  lemma {:induction false} AddAlt(alts: seq<Code>, a: Code, slot: seq<byte>)
    requires |slot| == 3
    ensures OpenBytes(alts + [a], slot) ==
            OpenBytes(alts, Jump(JUMP_PAST_ALT, |Bytes(a)| + 3)) + (Jump(ON_FAILURE_JUMP, |Bytes(a)| + 3) + (Bytes(a) + slot))
  {
    hide Bytes, Jump;
    var all, past := alts + [a], Jump(JUMP_PAST_ALT, |Bytes(a)| + 3);
    if alts == [] {
      assert all == [a] && all[1..] == [];
      assert slot + [] == slot;
    } else {
      assert all[0] == alts[0] && all[1..] == alts[1..] + [a];
      AddAlt(alts[1..], a, slot);
      assert all[1] == if |alts| == 1 then a else alts[1];
      var t := Jump(ON_FAILURE_JUMP, |Bytes(a)| + 3) + (Bytes(a) + slot);
      if |alts| == 1 {
        assert alts[1..] == [] && OpenBytes(alts[1..], past) == [] && [] + t == t;
        Assoc(Jump(ON_FAILURE_JUMP, |Bytes(alts[0])| + 3), Bytes(alts[0]), past, [], t);
      } else {
        Assoc(Jump(ON_FAILURE_JUMP, |Bytes(alts[0])| + 3), Bytes(alts[0]), Jump(JUMP_PAST_ALT, |Bytes(alts[1])| + 3), OpenBytes(alts[1..], past), t);
      }
    }
  }

  lemma Assoc(a: seq<byte>, b: seq<byte>, c: seq<byte>, d: seq<byte>, t: seq<byte>)
    ensures a + (b + (c + (d + t))) == a + (b + (c + d)) + t
  {
  }

  /** With the last slot jumping past the last alternative, the whole is the code of a choice. */
  lemma {:induction false} CloseAlts(alts: seq<Code>, last: Code)
    requires alts != [] && !last.Choice? && forall a :: a in alts ==> !a.Choice?
    ensures OpenBytes(alts, Jump(JUMP_PAST_ALT, |Bytes(last)|)) + Bytes(last) == Bytes(ChoiceOf(alts, last))
  {
    hide Bytes, Jump;
    var past := Jump(JUMP_PAST_ALT, |Bytes(last)|);
    var rest := ChoiceOf(alts[1..], last);
    ChoiceUnfold(alts[0], rest);
    var first := Jump(ON_FAILURE_JUMP, |Bytes(alts[0])| + 3);
    if |alts| == 1 {
      assert alts[1..] == [];
      Assoc(first, Bytes(alts[0]), past, [], Bytes(last));
      assert [] + Bytes(last) == Bytes(last);
    } else {
      CloseAlts(alts[1..], last);
      Assoc(first, Bytes(alts[0]), Jump(JUMP_PAST_ALT, Past(rest)), OpenBytes(alts[1..], past), Bytes(last));
    }
  }

  lemma ChoiceUnfold(l: Code, r: Code)
    ensures Bytes(Choice(l, r)) == Jump(ON_FAILURE_JUMP, |Bytes(l)| + 3) + (Bytes(l) + (Jump(JUMP_PAST_ALT, Past(r)) + Bytes(r)))
  {
  }

  // ----- Repetition -----

  lemma {:induction false} ParseReps(p: Parse, ops: seq<byte>, x: Regex, y: Regex)
    requires (forall o :: o in ops ==> IsRep(o)) && p.top.cur == Cat(x, y)
    ensures ParseAll(p, ops) == p.(top := p.top.(cur := Cat(x, Reps(ops, y))))
    decreases |ops|
  {
    if ops != [] {
      var front, last := ops[..|ops| - 1], ops[|ops| - 1];
      assert ops == front + [last] && last in ops;
      ParseReps(p, front, x, y);
      ParseStep(p, front, [last]);
      var q := ParseAll(p, front);
      assert ParseAll(q, [last]) == ParseAll(ParseChar(q, last), []);
    }
  }

  lemma {:induction false} ParseNoReps(p: Parse, ops: seq<byte>)
    requires (forall o :: o in ops ==> IsRep(o)) && !p.top.cur.Cat?
    ensures ParseAll(p, ops) == p
    decreases |ops|
  {
    if ops != [] {
      assert ops[0] in ops && ParseChar(p, ops[0]) == p;
      ParseNoReps(p, ops[1..]);
    }
  }

  // ----- Steps on the buffer -----

  function WithCur(st: State, c: Code): State {
    st.(top := st.top.(cur := c))
  }

  function WithSlot(st: State, slot: seq<byte>): State {
    st.(top := st.top.(slot := slot))
  }

  lemma WithCurSame(st: State, c: Code, fixup: Option<nat>, stack: seq<Saved>)
    requires WfState(st) && Straight(c)
    ensures var st' := WithCur(st, c);
      && WfState(st') && Prefix(st') == Prefix(st) && Begalt(st') == Begalt(st)
      && (IsFixup(st', fixup) <==> IsFixup(st, fixup)) && (StackOk(st', stack) <==> StackOk(st, stack))
      && EraseState(st').top.alts == EraseState(st).top.alts && EraseState(st).top.cur == Erase(st.top.cur)
      && EraseState(st') == EraseState(st).(top := EraseState(st).top.(cur := Erase(c)))
  {
  }

  lemma AppendItem(st: State, t: Item)
    ensures StateBytes(WithCur(st, Then(st.top.cur, t))) == StateBytes(st) + ItemBytes(t)
  {
    hide ItemBytes, OpenBytes;
    assert Prefix(WithCur(st, Then(st.top.cur, t))) == Prefix(st);
    hide Prefix;
    Assoc3(Prefix(st), OpenBytes(st.top.alts, st.top.slot), Bytes(st.top.cur), ItemBytes(t));
  }

  lemma Assoc3(p: seq<byte>, o: seq<byte>, c: seq<byte>, t: seq<byte>)
    ensures p + (o + (c + t)) == p + (o + c) + t
  {
  }

  /** The code of the last item is at the end. */
  lemma LastItem(st: State, front: Code, t: Item)
    requires st.top.cur == Then(front, t)
    ensures var b := StateBytes(st); var at := Begalt(st) + |Bytes(front)|;
      && b == StateBytes(WithCur(st, front)) + ItemBytes(t) && at <= |b|
      && b[at..] == ItemBytes(t) && b[..at] == StateBytes(WithCur(st, front))
  {
    AppendItem(WithCur(st, front), t);
    var f := WithCur(st, front);
    assert Prefix(f) == Prefix(st) && WithCur(f, Then(f.top.cur, t)) == st;
    assert |StateBytes(f)| == Begalt(st) + |Bytes(front)|;
  }

  lemma NewItem(st: State, front: Code, t: Item, t': Item)
    requires st.top.cur == Then(front, t)
    ensures var at := Begalt(st) + |Bytes(front)|;
      at <= |StateBytes(st)| && StateBytes(WithCur(st, Then(front, t'))) == StateBytes(st)[..at] + ItemBytes(t')
  {
    LastItem(st, front, t);
    AppendItem(WithCur(st, front), t');
  }

  /** One more character in the exactn at the end. */
  lemma ExtendRun(st: State, front: Code, cs: seq<byte>, c: byte)
    requires st.top.cur == Then(front, Run(cs)) && |cs| < 255
    ensures var pe := Begalt(st) + |Bytes(front)| + 1; var b := StateBytes(st);
      && pe + |cs| + 1 == |b| && b[pe] == |cs|
      && StateBytes(WithCur(st, Then(front, Run(cs + [c])))) == b[pe := |cs| + 1] + [c]
  {
    hide StateBytes, Begalt;
    var b, at := StateBytes(st), Begalt(st) + |Bytes(front)|;
    LastItem(st, front, Run(cs));
    NewItem(st, front, Run(cs), Run(cs + [c]));
    RunBytes(cs);
    RunBytes(cs + [c]);
    assert b == b[..at] + b[at..];
  }

  lemma RunBytes(cs: seq<byte>)
    requires |cs| < 256
    ensures ItemBytes(Run(cs)) == [EXACTN, |cs|] + cs
  {
  }

  /** Filling in the slot. */
  lemma FillSlot(st: State, slot: seq<byte>)
    requires WfFrame(st.top) && st.top.alts != [] && |slot| == 3
    ensures var b := StateBytes(st);
      3 <= Begalt(st) <= |b| && StateBytes(WithSlot(st, slot)) == b[..Begalt(st) - 3] + slot + b[Begalt(st)..]
  {
    hide OpenBytes, Bytes, Prefix, StateBytes, Begalt;
    SlotBegalt(st, slot);
    var o, o' := OpenBytes(st.top.alts, st.top.slot), OpenBytes(st.top.alts, slot);
    SlotLast(st.top.alts, st.top.slot, slot);
    Parts(st);
    assert StateBytes(WithSlot(st, slot)) == Prefix(st) + (o' + Bytes(st.top.cur)) by {
      Parts(WithSlot(st, slot));
      PrefixTop(st, st.top.(slot := slot));
    }
    FillIn(Prefix(st), o, o', Bytes(st.top.cur), slot);
  }

  lemma Parts(st: State)
    ensures StateBytes(st) == Prefix(st) + (OpenBytes(st.top.alts, st.top.slot) + Bytes(st.top.cur))
    ensures Begalt(st) == |Prefix(st)| + |OpenBytes(st.top.alts, st.top.slot)| <= |StateBytes(st)|
  {
  }

  lemma PrefixTop(st: State, f: Frame)
    ensures Prefix(st.(top := f)) == Prefix(st)
  {
  }

  lemma FillIn(p: seq<byte>, o: seq<byte>, o': seq<byte>, c: seq<byte>, slot: seq<byte>)
    requires |slot| == 3 <= |o| && o' == o[..|o| - 3] + slot
    ensures var b := p + (o + c); var n := |p| + |o|;
      p + (o' + c) == b[..n - 3] + slot + b[n..]
  {
    var b, n := p + (o + c), |p| + |o|;
    assert b[..n - 3] == p + o[..|o| - 3] && b[n..] == c;
  }

  lemma WithSlotSame(st: State, slot: seq<byte>, fixup: Option<nat>, stack: seq<Saved>)
    requires WfState(st) && st.top.alts != [] && |slot| == 3
    ensures var st' := WithSlot(st, slot);
      && WfState(st') && Prefix(st') == Prefix(st) && EraseState(st') == EraseState(st)
      && (IsFixup(st', fixup) <==> IsFixup(st, fixup)) && (StackOk(st', stack) <==> StackOk(st, stack))
  {
    SlotLast(st.top.alts, st.top.slot, slot);
  }

  function AddAlternative(st: State): State {
    st.(top := Frame(st.top.alts + [st.top.cur], Nothing, [0, 0, 0]))
  }

  lemma SlotBegalt(st: State, slot: seq<byte>)
    requires WfFrame(st.top) && |slot| == 3
    ensures Begalt(WithSlot(st, slot)) == Begalt(st) <= |StateBytes(WithSlot(st, slot))| == |StateBytes(st)|
    ensures st.top.alts != [] ==> Begalt(st) >= 3
  {
    hide OpenBytes, Bytes, Prefix, StateBytes, Begalt;
    SlotSize(st.top.alts, st.top.slot, slot);
    Parts(st);
    Parts(WithSlot(st, slot));
    PrefixTop(st, st.top.(slot := slot));
  }

  /** The bytes after a `|`, from those before it with the slot filled in. */
  lemma BarBytes(st: State, b: seq<byte>)
    requires WfFrame(st.top) && b == StateBytes(WithSlot(st, Jump(JUMP_PAST_ALT, |Bytes(st.top.cur)| + 3)))
    ensures Begalt(st) <= |b|
    ensures StateBytes(AddAlternative(st)) == b[..Begalt(st)] + (Jump(ON_FAILURE_JUMP, |Bytes(st.top.cur)| + 3) + (b[Begalt(st)..] + [0, 0, 0]))
  {
    hide OpenBytes, Bytes, Prefix, StateBytes, Begalt, Jump;
    var n := |Bytes(st.top.cur)|;
    var past := Jump(JUMP_PAST_ALT, n + 3);
    SlotBegalt(st, past);
    var o, o' := OpenBytes(st.top.alts, past), OpenBytes(st.top.alts + [st.top.cur], [0, 0, 0]);
    AddAlt(st.top.alts, st.top.cur, [0, 0, 0]);
    assert b == Prefix(st) + (o + Bytes(st.top.cur)) && Begalt(st) == |Prefix(st)| + |o| by {
      Parts(WithSlot(st, past));
      PrefixTop(st, st.top.(slot := past));
    }
    assert StateBytes(AddAlternative(st)) == Prefix(st) + o' by {
      PrefixTop(st, AddAlternative(st).top);
      EmptyCur(AddAlternative(st));
    }
    BarJoin(Prefix(st), o, Bytes(st.top.cur), Jump(ON_FAILURE_JUMP, n + 3), b, o', StateBytes(AddAlternative(st)));
  }

  lemma BarBegalt(st: State)
    ensures Begalt(AddAlternative(st)) == |StateBytes(AddAlternative(st))|
  {
    EmptyCur(AddAlternative(st));
  }

  lemma SlotSize(alts: seq<Code>, slot: seq<byte>, slot': seq<byte>)
    requires |slot| == |slot'| == 3
    ensures |OpenBytes(alts, slot)| == |OpenBytes(alts, slot')| >= if alts == [] then 0 else 3
  {
    if alts != [] {
      SlotLast(alts, slot, slot');
    }
  }

  lemma BarJoin(p: seq<byte>, o: seq<byte>, c: seq<byte>, j: seq<byte>, b: seq<byte>, o': seq<byte>, b': seq<byte>)
    requires b == p + (o + c) && o' == o + (j + (c + [0, 0, 0])) && b' == p + o'
    ensures var n := |p| + |o|; n <= |b| && b' == b[..n] + (j + (b[n..] + [0, 0, 0]))
  {
    var n := |p| + |o|;
    assert b[..n] == p + o && b[n..] == c;
  }

  lemma EmptyCur(st: State)
    requires st.top.cur == Nothing
    ensures StateBytes(st) == Prefix(st) + OpenBytes(st.top.alts, st.top.slot)
  {
  }

  // ----- The compiler -----

  class Compiler {
    var buffer: seq<byte>
    var laststart: Option<nat>
    var begalt: nat
    var fixup: Option<nat>
    var pending: Option<nat>
    var stack: seq<Saved>
    var regnum: nat
    ghost var st: State

    ghost predicate Core()
      reads this
    {
      && WfState(st) && buffer == StateBytes(st) && begalt == Begalt(st) && IsFixup(st, fixup) && StackOk(st, stack)
      && forall s :: s in stack ==> s.regnum <= regnum
    }

    ghost predicate LastOk()
      reads this
    {
      && laststart == (if st.top.cur.Then? then Some(begalt + |Bytes(st.top.cur.front)|) else None)
      && (st.top.cur.Then? ==> !st.top.cur.item.Dummy?)
    }

    /** The most recent exactn can be extended only while it is the last instruction. */
    ghost predicate PendingOk()
      reads this
    {
      pending.Some? ==>
        var pe := pending.value;
        && begalt <= pe < |buffer| && pe + buffer[pe] + 1 <= |buffer|
        && (pe + buffer[pe] + 1 == |buffer| ==>
              st.top.cur.Then? && st.top.cur.item.Run? && pe == begalt + |Bytes(st.top.cur.front)| + 1)
    }

    ghost predicate Valid()
      reads this
    {
      Core() && LastOk() && PendingOk()
    }

    ghost predicate Fresh()
      reads this
    {
      Valid() && buffer == [] && EraseState(st) == START && st.top.cur == Nothing
    }

    constructor ()
      ensures Fresh()
    {
      buffer, laststart, begalt, fixup, pending, stack, regnum := [], None, 0, None, None, [], 0;
      st := Bottom(Frame([], Nothing, [0, 0, 0]));
    }

    /** STORE_JUMP. */
    method StoreJump(op: byte, loc: nat, to: int)
      requires loc + 3 <= |buffer|
      modifies this`buffer
      ensures buffer == old(buffer[..loc]) + Jump(op, to - loc - 3) + old(buffer[loc + 3..])
    {
      buffer := buffer[loc := op][loc + 1 := Low(to - loc - 3)][loc + 2 := High(to - loc - 3)];
    }

    /** INSERT_JUMP: insert_op1 moves the bytes from `loc` on up by three, last one first. */
    method InsertJump(op: byte, loc: nat, to: int)
      requires loc <= |buffer|
      modifies this`buffer
      ensures buffer == old(buffer[..loc]) + Jump(op, to - loc - 3) + old(buffer[loc..])
    {
      ghost var was := buffer;
      var from := |buffer|;
      var dest := from + 3;
      buffer := buffer + [0, 0, 0];
      while from != loc
        invariant loc <= from <= |was| && dest == from + 3 && |buffer| == |was| + 3
        invariant buffer[..from] == was[..from] && buffer[dest..] == was[from..]
      {
        dest, from := dest - 1, from - 1;
        buffer := buffer[dest := buffer[from]];
      }
      ghost var moved := buffer;
      StoreJump(op, loc, to);
      assert moved[..loc] == was[..loc] && moved[loc + 3..] == was[loc..];
    }

    /** An ordinary character; `alone` when a repetition follows. */
    method NormalChar(c: byte, alone: bool) returns (ok: bool)
      requires Core() && PendingOk() && (st.top.cur.Then? && st.top.cur.item.Run? ==> LastOk())
      modifies this`buffer, this`laststart, this`pending, this`st
      ensures !ok ==> |old(buffer)| + 3 > MAX_BUF_SIZE && unchanged(this)
      ensures ok ==> Valid() && EraseState(st) == AddTo(old(EraseState(st)), Lit(c))
      ensures ok ==> |buffer| <= |old(buffer)| + 3 && |buffer| <= MAX_BUF_SIZE
      ensures ok && alone ==> st.top.cur.Then? && st.top.cur.item == Run([c])
    {
      hide Bytes, ItemBytes, StateBytes, Begalt, StackOk, IsFixup, Erase, EraseState, WfState;
      ghost var st0 := st;
      if pending.None? || pending.value + buffer[pending.value] + 1 != |buffer| || buffer[pending.value] == 255 || alone {
        if |buffer| + 3 > MAX_BUF_SIZE {
          return false;
        }
        laststart := Some(|buffer|);
        buffer := buffer + [EXACTN, 0];
        pending := Some(|buffer| - 1);
        st := WithCur(st0, Then(st0.top.cur, Run([c])));
        StraightThen(st0, Run([c]));
        WithCurSame(st0, st.top.cur, fixup, stack);
        AppendItem(st0, Run([c]));
        CurEnd(st0);
        RunBytes([c]);
        EraseOne(st0.top.cur, c);
      } else {
        if |buffer| + 1 > MAX_BUF_SIZE {
          return false;
        }
        ghost var front, cs := st.top.cur.front, st.top.cur.item.chars;
        RunCount(st0, front, cs, |buffer|);
        ExtendRun(st0, front, cs, c);
        st := WithCur(st0, Then(front, Run(cs + [c])));
        StraightMore(st0, front, cs, c);
        WithCurSame(st0, st.top.cur, fixup, stack);
      }
      buffer := buffer + [c];
      buffer := buffer[pending.value := buffer[pending.value] + 1];
      ok := true;
    }

    /** `.` */
    method AnyDot() returns (ok: bool)
      requires Valid()
      modifies this`buffer, this`laststart, this`st
      ensures !ok ==> |old(buffer)| + 1 > MAX_BUF_SIZE && unchanged(this)
      ensures ok ==> Valid() && EraseState(st) == AddTo(old(EraseState(st)), AnyChar)
      ensures ok ==> |buffer| == |old(buffer)| + 1 <= MAX_BUF_SIZE
      ensures ok ==> st.top.cur.Then? && st.top.cur.item == Any
    {
      hide Bytes, StateBytes, Begalt, StackOk, IsFixup, EraseState, WfState;
      if |buffer| + 1 > MAX_BUF_SIZE {
        return false;
      }
      ghost var st0 := st;
      laststart := Some(|buffer|);
      buffer := buffer + [ANYCHAR];
      st := WithCur(st0, Then(st0.top.cur, Any));
      StraightThen(st0, Any);
      WithCurSame(st0, st.top.cur, fixup, stack);
      AppendItem(st0, Any);
      CurEnd(st0);
      ok := true;
    }

    /** The space the jumps of a repetition take. */
    static function LoopSpace(zero: bool, many: bool): nat {
      (if many then 3 else 0) + 3 + if zero then 0 else 3
    }

    /** The jumps of a repetition around the code from `at` on. */
    method EmitLoop(at: nat, zero: bool, many: bool)
      requires at <= |buffer|
      modifies this`buffer
      ensures buffer == old(buffer[..at]) + LoopBytes(zero, many, old(buffer[at..]))
      ensures |buffer| == |old(buffer)| + LoopSpace(zero, many)
    {
      hide LoopBytes, Jump;
      ghost var b0 := buffer;
      if many {
        buffer := buffer + [0, 0, 0];
        StoreJump(MAYBE_POP_JUMP, |buffer| - 3, at - 3);
        assert buffer == b0 + Jump(MAYBE_POP_JUMP, at - 3 - |b0| - 3);
      }
      InsertJump(ON_FAILURE_JUMP, at, |buffer| + 3);
      if !zero {
        InsertJump(DUMMY_FAILURE_JUMP, at, at + 6);
      }
      LoopEmitted(b0, at, zero, many, buffer);
    }

    /** A run of repetition characters after an item. */
    method Repeat(ghost ops: seq<byte>, zero: bool, many: bool) returns (ok: bool)
      requires Valid() && ops != [] && (forall o :: o in ops ==> IsRep(o)) && zero == ZeroOk(ops) && many == ManyOk(ops)
      requires laststart.Some? && (st.top.cur.Then? && st.top.cur.item.Run? ==> |st.top.cur.item.chars| == 1)
      modifies this`buffer, this`pending, this`st
      ensures !ok ==> |old(buffer)| + LoopSpace(zero, many) > MAX_BUF_SIZE && unchanged(this)
      ensures ok ==> Valid() && EraseState(st) == ParseAll(old(EraseState(st)), ops)
      ensures ok ==> |buffer| == |old(buffer)| + LoopSpace(zero, many) <= MAX_BUF_SIZE
    {
      hide Bytes, ItemBytes, StateBytes, Begalt, StackOk, IsFixup, Erase, EraseState, WfState, LoopBytes;
      if |buffer| + LoopSpace(zero, many) > MAX_BUF_SIZE {
        return false;
      }
      ghost var st0, front, t := st, st.top.cur.front, st.top.cur.item;
      LastItem(st0, front, t);
      NewItem(st0, front, t, Loop(ops, t));
      EmitLoop(laststart.value, zero, many);
      pending := None;
      LoopItem(ops, t);
      st := WithCur(st0, Then(front, Loop(ops, t)));
      LoopErase(st0, front, ops, t);
      WithCurSame(st0, st.top.cur, fixup, stack);
      ParseReps(EraseState(st0), ops, Erase(front), EraseItem(t));
      ok := true;
    }

    /** handle_open. */
    method OpenGroup() returns (ok: bool)
      requires Valid() && |buffer| <= MAX_BUF_SIZE
      modifies this
      ensures !ok ==> |old(buffer)| + 3 > MAX_BUF_SIZE && unchanged(this)
      ensures ok ==> Valid() && EraseState(st) == ParseChar(old(EraseState(st)), OPEN)
      ensures ok ==> |buffer| <= |old(buffer)| + 3 && |buffer| <= MAX_BUF_SIZE
      ensures ok ==> st.top.cur == Nothing
    {
      hide Bytes, Erase, IsFixup, StateBytes, Begalt, StackOk, EraseState, WfState;
      if regnum + 1 <= MAX_REGNUM && |buffer| + 3 > MAX_BUF_SIZE {
        return false;
      }
      regnum := regnum + 1;
      NewGroup(st, regnum, begalt, fixup, stack);
      stack := stack + [Saved(begalt, fixup, |buffer|, regnum, |buffer| + 2)];
      st := Inside(st, regnum, Frame([], Nothing, [0, 0, 0]));
      buffer := buffer + Memory(START_MEMORY, regnum, 0);
      fixup, laststart, begalt, pending := None, None, |buffer|, None;
      ok := true;
    }

    /** handle_alt. */
    method Bar() returns (ok: bool)
      requires Valid()
      modifies this
      ensures !ok ==> |old(buffer)| + 6 > MAX_BUF_SIZE && unchanged(this)
      ensures ok ==> Valid() && EraseState(st) == ParseChar(old(EraseState(st)), BAR)
      ensures ok ==> |buffer| == |old(buffer)| + 6 <= MAX_BUF_SIZE
      ensures ok ==> st.top.cur == Nothing
    {
      hide Bytes, Erase, IsFixup, StateBytes, Begalt, StackOk, EraseState, WfState, Jump;
      if |buffer| + 6 > MAX_BUF_SIZE {
        return false;
      }
      EmitBar();
      pending := None;
      fixup := Some(|buffer| - 3);
      laststart, begalt := None, |buffer|;
      BarBegalt(st);
      BarSame(st, fixup, stack);
      st := AddAlternative(st);
      ok := true;
    }

    /** The jump in front of the alternative, the jump after the one before, and a new slot. */
    method EmitBar()
      requires Core()
      modifies this`buffer
      ensures buffer == StateBytes(AddAlternative(st)) && |buffer| == |old(buffer)| + 6
    {
      hide Bytes, Erase, IsFixup, StateBytes, Begalt, StackOk, EraseState, WfState, Jump;
      ghost var b0, n := buffer, |Bytes(st.top.cur)|;
      ghost var past := Jump(JUMP_PAST_ALT, n + 3);
      CurEnd(st);
      FixupPlace(st, fixup);
      InsertJump(ON_FAILURE_JUMP, begalt, |buffer| + 6);
      if fixup.Some? {
        StoreJump(JUMP_PAST_ALT, fixup.value, |buffer|);
      }
      SlotFilled(st, past);
      BarBytes(st, StateBytes(WithSlot(st, past)));
      BarEmitted(b0, begalt, Jump(ON_FAILURE_JUMP, n + 3), fixup.Some?, past, StateBytes(WithSlot(st, past)), buffer);
      buffer := buffer + [0, 0, 0];
    }

    /** The end of an alternative in front of a `)`. */
    method PushDummy()
      requires Core()
      modifies this`buffer
      ensures fixup.None? ==> buffer == old(buffer)
      ensures fixup.Some? ==> |buffer| == |old(buffer)| + 1 && forall k :: begalt <= k < |old(buffer)| ==> buffer[k] == old(buffer)[k]
      ensures fixup.Some? ==> buffer == StateBytes(WithSlot(st, Jump(JUMP_PAST_ALT, |Bytes(st.top.cur)|))) + [PUSH_DUMMY_FAILURE]
    {
      hide Bytes, Erase, StateBytes, Begalt, StackOk, EraseState, WfState, Jump, IsFixup;
      CurEnd(st);
      FixupPlace(st, fixup);
      if fixup.Some? {
        ghost var b0, slot := buffer, Jump(JUMP_PAST_ALT, |Bytes(st.top.cur)|);
        buffer := buffer + [PUSH_DUMMY_FAILURE];
        StoreJump(JUMP_PAST_ALT, fixup.value, |buffer| - 1);
        SlotFilled(st, slot);
        assert buffer == (b0[..begalt - 3] + slot + b0[begalt..]) + [PUSH_DUMMY_FAILURE];
      }
    }

    /** handle_close with a group open. */
    method CloseGroup() returns (ok: bool)
      requires Valid() && stack != [] && |buffer| <= MAX_BUF_SIZE
      modifies this
      ensures !ok ==> |old(buffer)| + 4 > MAX_BUF_SIZE && unchanged(this)
      ensures ok ==> Valid() && EraseState(st) == ParseChar(old(EraseState(st)), CLOSE)
      ensures ok ==> |buffer| <= |old(buffer)| + 4 && |buffer| <= MAX_BUF_SIZE
      ensures ok ==> st.top.cur.Then? && st.top.cur.item.Mem?
    {
      hide Bytes, ItemBytes, MemBytes, Erase, IsFixup, StateBytes, Begalt, StackOk, EraseState, WfState, Prefix;
      var s := stack[|stack| - 1];
      if |buffer| + (if fixup.Some? then 1 else 0) + (if s.regnum <= MAX_REGNUM then 3 else 0) > MAX_BUF_SIZE {
        return false;
      }
      InGroup(st, stack);
      ghost var st0, c := st, ChoiceOf(st.top.alts, st.top.cur);
      pending := None;
      EmitClose(s.regnum, s.inner);
      stack := stack[..|stack| - 1];
      begalt, fixup, laststart := s.begalt, s.fixup, Some(s.laststart);
      GroupSame(st0, regnum - s.regnum, fixup, stack);
      CurEnd(st0.outer);
      st := WithCur(st0.outer, Then(st0.outer.top.cur, Mem(s.regnum, regnum - s.regnum, c)));
      ok := true;
    }

    method EmitClose(reg: nat, inner: nat)
      requires Core() && st.Inside? && reg == st.reg <= regnum && inner == |StateBytes(st.outer)| + 2
      modifies this`buffer
      ensures var t := Mem(st.reg, regnum - reg, ChoiceOf(st.top.alts, st.top.cur));
        buffer == StateBytes(WithCur(st.outer, Then(st.outer.top.cur, t)))
      ensures |buffer| == |old(buffer)| + (if fixup.Some? then 1 else 0) + if reg <= MAX_REGNUM then 3 else 0
    {
      hide Bytes, ItemBytes, MemBytes, Erase, IsFixup, StateBytes, Begalt, StackOk, EraseState, WfState, Prefix;
      FixupPlace(st, fixup);
      PushDummy();
      ClosedBody(st, fixup, buffer);
      if reg <= MAX_REGNUM {
        GroupPatch(st, regnum - reg, buffer);
        buffer := buffer[inner := Low(regnum - reg)];
        buffer := buffer + [STOP_MEMORY, reg, Low(regnum - reg)];
      }
      GroupEmitted(st, regnum - reg, buffer);
    }

    /** A `)` with no group open is an ordinary character, though an alternative before it
        gets its dummy failure point. */
    method StrayClose(alone: bool) returns (ok: bool)
      requires Valid() && stack == []
      modifies this
      ensures !ok ==> |old(buffer)| + 4 > MAX_BUF_SIZE && unchanged(this)
      ensures ok ==> Valid() && EraseState(st) == ParseChar(old(EraseState(st)), CLOSE)
      ensures ok ==> |buffer| <= |old(buffer)| + 4 && |buffer| <= MAX_BUF_SIZE
      ensures ok && alone ==> st.top.cur.Then? && st.top.cur.item == Run([CLOSE])
    {
      hide Bytes, Erase, IsFixup, StateBytes, Begalt, StackOk, WfState, Prefix, EraseState, ParseChar, Jump;
      NoGroup(st, stack);
      FixupPlace(st, fixup);
      if fixup.Some? {
        // the dummy failure point, and then a character that starts a new run
        if |buffer| + 4 > MAX_BUF_SIZE {
          return false;
        }
        PushDummy();
        DummySame(st, fixup, stack);
        st := WithDummy(st);
      }
      ok := NormalChar(CLOSE, alone);
    }

    /** The end of the pattern. */
    method Finish() returns (error: Error, ghost code: Code)
      requires Valid()
      modifies this`buffer
      ensures error == (if EraseState(st).Outermost? then NoError else EParen) && |buffer| == |old(buffer)|
      ensures error.NoError? ==> Wf(code) && buffer == Bytes(code)
      ensures error.NoError? ==> Erase(code) == AltOf(EraseState(st).top.alts, EraseState(st).top.cur)
    {
      hide Bytes, Erase, StateBytes, Begalt, Jump, IsFixup, WfState;
      CurEnd(st);
      FixupPlace(st, fixup);
      code := ChoiceOf(st.top.alts, st.top.cur);
      ChoiceErase(st.top.alts, st.top.cur);
      ClosedAll(st);
      if fixup.Some? {
        SlotFilled(st, Jump(JUMP_PAST_ALT, |Bytes(st.top.cur)|));
        StoreJump(JUMP_PAST_ALT, fixup.value, |buffer|);
      }
      error := if stack != [] then EParen else NoError;
    }

    /**
     regex_compile on a pattern of the fragment.  It fails on a group left open, or if the
     code of what has been read comes within nine bytes of the limit.  Otherwise the code is that of a tree with the
     pattern's own regular expression, and while jumps fit their two bytes it accepts
     exactly the strings that the pattern matches.
     */
    method Compile(pattern: seq<byte>) returns (error: Error, ghost code: Code, ghost read: nat)
      requires Fresh() && forall c :: c in pattern ==> c !in OUTSIDE
      modifies this
      ensures error.EParen? ==> ParsePattern(pattern).None?
      ensures error.ESize? ==> 9 * |pattern| > MAX_BUF_SIZE && MAX_BUF_SIZE < |buffer| + 9
      ensures error.ESize? ==> Valid() && read < |pattern| && EraseState(st) == ParseAll(START, pattern[..read])
      ensures |buffer| <= MAX_BUF_SIZE
      ensures error.NoError? ==> ParsePattern(pattern).Some? && Wf(code) && buffer == Bytes(code)
      ensures error.NoError? ==> Erase(code) == ParsePattern(pattern).value
      ensures error.NoError? && |buffer| < SMALL ==>
                forall w :: Language(buffer, w) <==> Matches(ParsePattern(pattern).value, w)
    {
      hide Bytes, Erase, StateBytes, Begalt, Language, Matches, StackOk, IsFixup, WfState, ParseChar, AltOf;
      code, read := Nothing, 0;
      var p := 0;
      while p != |pattern|
        invariant 0 <= p <= |pattern| && Valid() && |buffer| <= 9 * p && |buffer| <= MAX_BUF_SIZE
        invariant EraseState(st) == ParseAll(START, pattern[..p])
        invariant p < |pattern| && IsRep(pattern[p]) ==> Repeatable(st.top.cur)
        decreases |pattern| - p
      {
        var ok;
        read := p;
        ok, p := Step(pattern, p);
        if !ok {
          return ESize, code, read;
        }
      }
      assert pattern[..p] == pattern;
      error, code := Finish();
      if error.NoError? && |buffer| < SMALL {
        forall w ensures Language(buffer, w) <==> Matches(ParsePattern(pattern).value, w) {
          CodeLanguage(code, w);
        }
      }
    }

    /** One turn of the main loop. */
    method Step(pattern: seq<byte>, start: nat) returns (ok: bool, p: nat)
      requires Valid() && start < |pattern| && EraseState(st) == ParseAll(START, pattern[..start])
      requires |buffer| <= 9 * start && |buffer| <= MAX_BUF_SIZE
      requires IsRep(pattern[start]) ==> Repeatable(st.top.cur)
      modifies this
      ensures start < p <= |pattern| && (!ok ==> MAX_BUF_SIZE < |old(buffer)| + 9 && unchanged(this))
      ensures ok ==> Valid() && |buffer| <= 9 * p && |buffer| <= MAX_BUF_SIZE && EraseState(st) == ParseAll(START, pattern[..p])
      ensures ok && p < |pattern| && IsRep(pattern[p]) ==> Repeatable(st.top.cur)
    {
      hide Bytes, Erase, StateBytes, Begalt, StackOk, IsFixup, WfState, EraseState, ParseChar;
      p := start;
      var c := pattern[p];
      p := p + 1;
      ParseNext(pattern, start);
      var alone := p < |pattern| && IsRep(pattern[p]);
      if IsRep(c) {
        ok, p := Repetition(pattern, start);
      } else if c == DOT {
        CharKinds(EraseState(st), c);
        ok := AnyDot();
      } else if c == OPEN {
        ok := OpenGroup();
      } else if c == CLOSE && stack != [] {
        ok := CloseGroup();
      } else if c == CLOSE {
        ok := StrayClose(alone);
      } else if c == BAR {
        ok := Bar();
      } else {
        CharKinds(EraseState(st), c);
        ok := NormalChar(c, alone);
      }
    }

    /** The loop that collapses repetition characters. */
    static method CollapseRun(pattern: seq<byte>, start: nat) returns (p: nat, zero: bool, many: bool)
      requires start < |pattern| && IsRep(pattern[start])
      ensures start < p <= |pattern| && (p < |pattern| ==> !IsRep(pattern[p])) && forall o :: o in pattern[start..p] ==> IsRep(o)
      ensures zero == ZeroOk(pattern[start..p]) && many == ManyOk(pattern[start..p])
    {
      p, zero, many := start + 1, pattern[start] != PLUS, pattern[start] != QUESTION;
      assert pattern[start..p] == [] + [pattern[start]];
      OpsSnoc([], pattern[start]);
      while p != |pattern| && IsRep(pattern[p])
        invariant start < p <= |pattern| && forall o :: o in pattern[start..p] ==> IsRep(o)
        invariant zero == ZeroOk(pattern[start..p]) && many == ManyOk(pattern[start..p])
      {
        zero, many := zero || pattern[p] != PLUS, many || pattern[p] != QUESTION;
        assert pattern[start..p + 1] == pattern[start..p] + [pattern[p]];
        OpsSnoc(pattern[start..p], pattern[p]);
        p := p + 1;
      }
    }

    /** A run of repetition characters, and what is then emitted. */
    method Repetition(pattern: seq<byte>, start: nat) returns (ok: bool, p: nat)
      requires Valid() && start < |pattern| && IsRep(pattern[start]) && Repeatable(st.top.cur)
      requires |buffer| <= 9 * start && |buffer| <= MAX_BUF_SIZE && EraseState(st) == ParseAll(START, pattern[..start])
      modifies this`buffer, this`pending, this`st
      ensures start < p <= |pattern| && (p < |pattern| ==> !IsRep(pattern[p]))
      ensures !ok ==> MAX_BUF_SIZE < |old(buffer)| + 9 && unchanged(this)
      ensures ok ==> Valid() && |buffer| <= 9 * p && |buffer| <= MAX_BUF_SIZE && EraseState(st) == ParseAll(START, pattern[..p])
    {
      hide Bytes, Erase, StateBytes, Begalt, StackOk, IsFixup, WfState, EraseState, ParseAll;
      var zero, many;
      p, zero, many := CollapseRun(pattern, start);
      ghost var ops := pattern[start..p];
      assert pattern[..p] == pattern[..start] + ops;
      ParseStep(START, pattern[..start], ops);
      if laststart.Some? {
        ok := Repeat(ops, zero, many);
      } else {
        NothingErased(st);
        ParseNoReps(EraseState(st), ops);
        ok := true;
      }
    }
  }

  /** What a repetition character may find before it. */
  ghost predicate Repeatable(cur: Code) {
    cur.Then? && cur.item.Run? ==> |cur.item.chars| == 1
  }

  lemma ParseNext(pattern: seq<byte>, start: nat)
    requires start < |pattern|
    ensures ParseAll(START, pattern[..start + 1]) == ParseChar(ParseAll(START, pattern[..start]), pattern[start])
  {
    assert pattern[..start + 1] == pattern[..start] + [pattern[start]];
    ParseStep(START, pattern[..start], [pattern[start]]);
    var q := ParseAll(START, pattern[..start]);
    assert ParseAll(q, [pattern[start]]) == ParseAll(ParseChar(q, pattern[start]), []);
  }

  lemma CharKinds(p: Parse, c: byte)
    requires c != OPEN && c != BAR && !IsRep(c) && c != CLOSE
    ensures ParseChar(p, c) == AddTo(p, if c == DOT then AnyChar else Lit(c))
  {
  }

  lemma NothingErased(st: State)
    requires WfState(st) && !st.top.cur.Then?
    ensures !EraseState(st).top.cur.Cat?
  {
  }

  lemma NoGroup(st: State, stack: seq<Saved>)
    requires WfState(st) && StackOk(st, stack) && stack == []
    ensures ParseChar(EraseState(st), CLOSE) == AddTo(EraseState(st), Lit(CLOSE))
  {
  }

  function WithDummy(st: State): State {
    WithCur(WithSlot(st, Jump(JUMP_PAST_ALT, |Bytes(st.top.cur)|)), Then(st.top.cur, Dummy))
  }

  lemma DummySame(st: State, fixup: Option<nat>, stack: seq<Saved>)
    requires WfState(st) && st.top.alts != [] && IsFixup(st, fixup) && StackOk(st, stack)
    ensures var st' := WithDummy(st); var s := WithSlot(st, Jump(JUMP_PAST_ALT, |Bytes(st.top.cur)|));
      && WfState(st') && IsFixup(st', fixup) && StackOk(st', stack) && Begalt(st') == Begalt(st)
      && EraseState(st') == EraseState(st) && StateBytes(st') == StateBytes(s) + [PUSH_DUMMY_FAILURE]
  {
    hide Bytes, StateBytes, Begalt, StackOk, IsFixup;
    var slot := Jump(JUMP_PAST_ALT, |Bytes(st.top.cur)|);
    var s := WithSlot(st, slot);
    WithSlotSame(st, slot, fixup, stack);
    SlotBegalt(st, slot);
    StraightThen(s, Dummy);
    WithCurSame(s, Then(s.top.cur, Dummy), fixup, stack);
    AppendItem(s, Dummy);
  }

  lemma StraightThen(st: State, t: Item)
    requires WfState(st) && WfItem(t)
    ensures Straight(Then(st.top.cur, t))
  {
  }

  lemma CurEnd(st: State)
    ensures Begalt(st) + |Bytes(st.top.cur)| == |StateBytes(st)|
  {
  }

  lemma EraseOne(c: Code, x: byte)
    requires Straight(c)
    ensures Straight(Then(c, Run([x]))) && Erase(Then(c, Run([x]))) == Cat(Erase(c), Lit(x))
  {
    assert [x][..0] == [] && WfItem(Run([x]));
    assert EraseRun(Erase(c), [x]) == Cat(EraseRun(Erase(c), [x][..0]), Lit(x));
  }

  lemma StraightMore(st: State, front: Code, cs: seq<byte>, c: byte)
    requires WfState(st) && st.top.cur == Then(front, Run(cs)) && |cs| < 255
    ensures Straight(Then(front, Run(cs + [c]))) && Straight(st.top.cur)
    ensures Erase(Then(front, Run(cs + [c]))) == Cat(Erase(st.top.cur), Lit(c))
  {
    assert (cs + [c])[..|cs|] == cs;
  }

  /** The count byte of the exactn at the end. */
  lemma RunCount(st: State, front: Code, cs: seq<byte>, n: int)
    requires WfState(st) && st.top.cur == Then(front, Run(cs)) && n == |StateBytes(st)|
    ensures var pe := Begalt(st) + |Bytes(front)| + 1;
      pe + |cs| + 1 == n && StateBytes(st)[pe] == |cs|
  {
    assert Straight(st.top.cur) && WfItem(Run(cs));
    hide StateBytes, Begalt;
    LastItem(st, front, Run(cs));
    RunBytes(cs);
    var b, at := StateBytes(st), Begalt(st) + |Bytes(front)|;
    assert b[at + 1] == b[at..][1];
  }

  /** The jumps put around an item by a repetition are those of a loop. */
  lemma LoopEmitted(b: seq<byte>, at: nat, zero: bool, many: bool, b': seq<byte>)
    requires at <= |b|
    requires var b1 := if many then b + Jump(MAYBE_POP_JUMP, at - 3 - |b| - 3) else b;
      var b2 := b1[..at] + Jump(ON_FAILURE_JUMP, |b1| - at) + b1[at..];
      b' == if zero then b2 else b2[..at] + Jump(DUMMY_FAILURE_JUMP, 3) + b2[at..]
    ensures b' == b[..at] + LoopBytes(zero, many, b[at..])
  {
    hide Jump;
    var body := b[at..];
    var tail := if many then Jump(MAYBE_POP_JUMP, -(|body| + 6)) else [];
    var b1 := b + tail;
    Appended(b, at, tail);
    var o := Jump(ON_FAILURE_JUMP, |b1| - at);
    Inserted(b1, at, o);
    if zero {
      Assoc4(b[..at], [], o, body, tail);
    } else {
      Inserted(b1[..at] + o + b1[at..], at, Jump(DUMMY_FAILURE_JUMP, 3));
      Assoc4(b[..at], Jump(DUMMY_FAILURE_JUMP, 3), o, body, tail);
    }
  }

  lemma Appended(b: seq<byte>, at: nat, t: seq<byte>)
    requires at <= |b|
    ensures (b + t)[..at] == b[..at] && (b + t)[at..] == b[at..] + t
    ensures t == [] ==> b + t == b
  {
  }

  lemma Inserted(b: seq<byte>, at: nat, o: seq<byte>)
    requires at <= |b|
    ensures var c := b[..at] + o + b[at..]; c[..at] == b[..at] && c[at..] == o + b[at..]
  {
  }

  lemma Assoc4(a: seq<byte>, d: seq<byte>, o: seq<byte>, b: seq<byte>, t: seq<byte>)
    ensures a + d + (o + (b + t)) == a + (d + (o + b + t)) && a + o + (b + t) == a + ([] + (o + b + t))
  {
    assert [] + (o + b + t) == o + b + t;
  }

  lemma LoopItem(ops: seq<byte>, t: Item)
    ensures ItemBytes(Loop(ops, t)) == LoopBytes(ZeroOk(ops), ManyOk(ops), ItemBytes(t))
  {
  }

  lemma LoopErase(st: State, front: Code, ops: seq<byte>, t: Item)
    requires WfState(st) && st.top.cur == Then(front, t) && ops != [] && forall o :: o in ops ==> IsRep(o)
    requires !t.Dummy? && (t.Run? ==> |t.chars| == 1)
    ensures Straight(Then(front, Loop(ops, t))) && Straight(front) && WfItem(t)
    ensures EraseState(st).top.cur == Cat(Erase(front), EraseItem(t))
    ensures Erase(Then(front, Loop(ops, t))) == Cat(Erase(front), Reps(ops, EraseItem(t)))
  {
    assert Straight(st.top.cur) && WfItem(t);
    if t.Run? {
      EraseOne(front, t.chars[0]);
      assert t.chars == [t.chars[0]];
    }
  }

  lemma NewGroup(st: State, reg: nat, begalt: nat, fixup: Option<nat>, stack: seq<Saved>)
    requires WfState(st) && begalt == Begalt(st) && IsFixup(st, fixup) && StackOk(st, stack)
    ensures var st' := Inside(st, reg, Frame([], Nothing, [0, 0, 0])); var n := |StateBytes(st)|;
      && StateBytes(st') == StateBytes(st) + Memory(START_MEMORY, reg, 0) && Begalt(st') == |StateBytes(st')|
      && WfState(st') && EraseState(st') == Within(EraseState(st), Open.Open([], Eps))
      && IsFixup(st', None) && StackOk(st', stack + [Saved(begalt, fixup, n, reg, n + 2)])
  {
    var stack' := stack + [Saved(begalt, fixup, |StateBytes(st)|, reg, |StateBytes(st)| + 2)];
    assert stack'[..|stack'| - 1] == stack;
  }

  lemma FixupPlace(st: State, fixup: Option<nat>)
    requires WfState(st) && IsFixup(st, fixup)
    ensures fixup.Some? <==> st.top.alts != []
    ensures fixup.Some? ==> fixup.value + 3 == Begalt(st)
    ensures Begalt(st) <= |StateBytes(st)| && WfFrame(st.top)
  {
  }

  /** A slot filled in where there is one. */
  lemma SlotFilled(st: State, slot: seq<byte>)
    requires WfState(st) && |slot| == 3
    ensures var b := StateBytes(st);
      && Begalt(WithSlot(st, slot)) == Begalt(st) <= |b| && (st.top.alts != [] ==> 3 <= Begalt(st))
      && StateBytes(WithSlot(st, slot)) == if st.top.alts == [] then b else b[..Begalt(st) - 3] + slot + b[Begalt(st)..]
  {
    hide Bytes, StateBytes, Begalt;
    SlotBegalt(st, slot);
    if st.top.alts == [] {
      Parts(st);
      Parts(WithSlot(st, slot));
      PrefixTop(st, st.top.(slot := slot));
    } else {
      FillSlot(st, slot);
    }
  }

  lemma BarEmitted(b: seq<byte>, g: nat, j: seq<byte>, fill: bool, past: seq<byte>, f: seq<byte>, b': seq<byte>)
    requires g <= |b| && |past| == 3 && (fill ==> 3 <= g)
    requires f == if fill then b[..g - 3] + past + b[g..] else b
    requires var b1 := b[..g] + j + b[g..]; b' == if fill then b1[..g - 3] + past + b1[g..] else b1
    ensures b' + [0, 0, 0] == f[..g] + (j + (f[g..] + [0, 0, 0]))
  {
    var b1 := b[..g] + j + b[g..];
    if fill {
      assert b1[..g - 3] == b[..g - 3] && b1[g..] == j + b[g..];
      assert f[..g] == b[..g - 3] + past && f[g..] == b[g..];
    }
  }

  lemma BarSame(st: State, fixup: Option<nat>, stack: seq<Saved>)
    requires WfState(st) && StackOk(st, stack) && fixup.Some? && fixup.value + 3 == Begalt(AddAlternative(st))
    ensures var st' := AddAlternative(st);
      WfState(st') && StackOk(st', stack) && IsFixup(st', fixup) && EraseState(st') == ParseChar(EraseState(st), BAR)
  {
    EraseSnoc(st.top.alts, st.top.cur);
  }

  lemma InGroup(st: State, stack: seq<Saved>)
    requires WfState(st) && StackOk(st, stack) && stack != []
    ensures st.Inside? && WfState(st.outer) && WfFrame(st.top)
    ensures var s := stack[|stack| - 1];
      && s.begalt == Begalt(st.outer) && IsFixup(st.outer, s.fixup) && s.laststart == |StateBytes(st.outer)|
      && s.regnum == st.reg && s.inner == s.laststart + 2 && StackOk(st.outer, stack[..|stack| - 1])
  {
  }

  /** What follows the opening of a group when its alternatives are closed. */
  function BodyBytes(f: Frame): seq<byte> {
    Bytes(ChoiceOf(f.alts, f.cur)) + if f.alts != [] then [PUSH_DUMMY_FAILURE] else []
  }

  lemma ClosedAll(st: State)
    requires WfFrame(st.top)
    ensures var slot := Jump(JUMP_PAST_ALT, |Bytes(st.top.cur)|);
      StateBytes(if st.top.alts == [] then st else WithSlot(st, slot)) == Prefix(st) + Bytes(ChoiceOf(st.top.alts, st.top.cur))
  {
    var slot := Jump(JUMP_PAST_ALT, |Bytes(st.top.cur)|);
    hide Bytes, StateBytes, Prefix, Jump;
    Parts(st);
    if st.top.alts != [] {
      Parts(WithSlot(st, slot));
      PrefixTop(st, st.top.(slot := slot));
      CloseAlts(st.top.alts, st.top.cur);
    } else {
      assert OpenBytes([], st.top.slot) + Bytes(st.top.cur) == Bytes(st.top.cur);
    }
  }

  lemma ClosedBody(st: State, fixup: Option<nat>, b: seq<byte>)
    requires WfFrame(st.top) && (fixup.Some? <==> st.top.alts != [])
    requires fixup.None? ==> b == StateBytes(st)
    requires fixup.Some? ==> b == StateBytes(WithSlot(st, Jump(JUMP_PAST_ALT, |Bytes(st.top.cur)|))) + [PUSH_DUMMY_FAILURE]
    ensures b == Prefix(st) + BodyBytes(st.top)
  {
    hide Bytes, StateBytes, Prefix, Jump, ChoiceOf, WfFrame;
    ClosedAll(st);
    var c := Bytes(ChoiceOf(st.top.alts, st.top.cur));
    if fixup.Some? {
      assert Prefix(st) + c + [PUSH_DUMMY_FAILURE] == Prefix(st) + (c + [PUSH_DUMMY_FAILURE]);
    } else {
      assert c + [] == c;
    }
  }

  /** The group count is patched into the start_memory that opened the group. */
  lemma GroupPatch(st: State, inner: nat, b: seq<byte>)
    requires st.Inside? && st.reg <= MAX_REGNUM && b == Prefix(st) + BodyBytes(st.top)
    ensures var m := |StateBytes(st.outer)|;
      m + 2 < |b| && b[m + 2 := Low(inner)] == StateBytes(st.outer) + ([START_MEMORY, st.reg, Low(inner)] + BodyBytes(st.top))
  {
    hide StateBytes, BodyBytes;
    var o, c := StateBytes(st.outer), BodyBytes(st.top);
    assert b == o + ([START_MEMORY, st.reg, Low(0)] + c);
  }

  lemma GroupEmitted(st: State, inner: nat, b: seq<byte>)
    requires st.Inside? && WfFrame(st.top)
    requires st.reg > MAX_REGNUM ==> b == Prefix(st) + BodyBytes(st.top)
    requires st.reg <= MAX_REGNUM ==>
      b == StateBytes(st.outer) + ([START_MEMORY, st.reg, Low(inner)] + BodyBytes(st.top)) + [STOP_MEMORY, st.reg, Low(inner)]
    ensures var t := Mem(st.reg, inner, ChoiceOf(st.top.alts, st.top.cur));
      b == StateBytes(WithCur(st.outer, Then(st.outer.top.cur, t)))
  {
    var c := ChoiceOf(st.top.alts, st.top.cur);
    ChoiceErase(st.top.alts, st.top.cur);
    MemItem(st.reg, inner, c);
    hide StateBytes, Bytes, ItemBytes, ChoiceOf;
    AppendItem(st.outer, Mem(st.reg, inner, c));
    MemJoin(StateBytes(st.outer), st.reg, inner, Bytes(c), st.top.alts != []);
  }

  lemma MemItem(reg: nat, inner: nat, c: Code)
    ensures ItemBytes(Mem(reg, inner, c)) == MemBytes(reg, inner, c.Choice?, Bytes(c))
  {
  }

  lemma MemJoin(o: seq<byte>, reg: nat, inner: nat, c: seq<byte>, choice: bool)
    ensures var body := c + if choice then [PUSH_DUMMY_FAILURE] else [];
      o + MemBytes(reg, inner, choice, c) ==
        if reg <= MAX_REGNUM then o + ([START_MEMORY, reg, Low(inner)] + body) + [STOP_MEMORY, reg, Low(inner)]
        else o + Memory(START_MEMORY, reg, 0) + body
  {
  }

  lemma GroupSame(st: State, inner: nat, fixup: Option<nat>, stack: seq<Saved>)
    requires WfState(st) && st.Inside? && IsFixup(st.outer, fixup) && StackOk(st.outer, stack)
    ensures var t := Mem(st.reg, inner, ChoiceOf(st.top.alts, st.top.cur)); var st' := WithCur(st.outer, Then(st.outer.top.cur, t));
      && WfState(st') && IsFixup(st', fixup) && StackOk(st', stack) && Begalt(st') == Begalt(st.outer)
      && EraseState(st') == ParseChar(EraseState(st), CLOSE)
  {
    ChoiceErase(st.top.alts, st.top.cur);
    var t := Mem(st.reg, inner, ChoiceOf(st.top.alts, st.top.cur));
    StraightThen(st.outer, t);
    hide Bytes, StateBytes, Begalt, StackOk, IsFixup;
    WithCurSame(st.outer, Then(st.outer.top.cur, t), fixup, stack);
  }
}
