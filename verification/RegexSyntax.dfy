/**
 The pattern language: the POSIX-extended fragment of lib/GNUregex.c without anchors,
 brackets, intervals and backslashes.  Strings are byte sequences.
 */
module RegexSyntax {
  import opened Basics

  const OPEN: byte := 40
  const CLOSE: byte := 41
  const STAR: byte := 42
  const PLUS: byte := 43
  const DOT: byte := 46
  const QUESTION: byte := 63
  const BAR: byte := 124

  /** `^`, `$`, `[`, `{` and the backslash. */
  const OUTSIDE: set<byte> := {94, 36, 91, 123, 92}

  datatype Regex =
    | Eps
    | Lit(c: byte)
    | AnyChar
    | Cat(left: Regex, right: Regex)
    | Alt(left: Regex, right: Regex)
    | Rep(zero: bool, many: bool, body: Regex)

  // ----- Meaning -----

  function Flat(ps: seq<seq<byte>>): (s: seq<byte>) {
    if ps == [] then [] else ps[0] + Flat(ps[1..])
  }

  predicate Allowed(zero: bool, many: bool, n: nat) {
    n == 1 || (zero && n == 0) || (many && n > 1)
  }

  /** `s` is in the language of `r`.  The syntax has RE_DOT_NEWLINE and RE_DOT_NOT_NULL set. */
  ghost predicate Matches(r: Regex, s: seq<byte>)
    decreases r
  {
    match r
    case Eps => s == []
    case Lit(c) => s == [c]
    case AnyChar => |s| == 1 && s[0] != 0
    case Cat(a, b) => exists k {:trigger s[..k]} :: 0 <= k <= |s| && Matches(a, s[..k]) && Matches(b, s[k..])
    case Alt(a, b) => Matches(a, s) || Matches(b, s)
    case Rep(z, m, b) => exists ps: seq<seq<byte>> :: Allowed(z, m, |ps|) && Flat(ps) == s && forall p :: p in ps ==> Matches(b, p)
  }

  ghost predicate Pieces(r: Regex, ps: seq<seq<byte>>) {
    forall p :: p in ps ==> Matches(r, p)
  }

  // ----- Parsing -----

  predicate IsRep(c: byte) {
    c == STAR || c == PLUS || c == QUESTION
  }

  /** A group being read: the alternatives that are complete and the one in progress. */
  datatype Open = Open(alts: seq<Regex>, cur: Regex)

  datatype Parse = Outermost(top: Open) | Within(outer: Parse, top: Open)

  function AltOf(alts: seq<Regex>, last: Regex): Regex {
    if alts == [] then last else Alt(alts[0], AltOf(alts[1..], last))
  }

  function AddTo(p: Parse, r: Regex): Parse {
    p.(top := p.top.(cur := Cat(p.top.cur, r)))
  }

  /** A repetition applies to the item before it; with none before it, it means nothing. */
  function RepeatLast(c: byte, cur: Regex): Regex
    requires IsRep(c)
  {
    if cur.Cat? then Cat(cur.left, Rep(c != PLUS, c != QUESTION, cur.right)) else cur
  }

  /** One character of a pattern.  A `)` without its `(` is an ordinary character. */
  function ParseChar(p: Parse, c: byte): Parse {
    if c == OPEN then Within(p, Open.Open([], Eps))
    else if c == CLOSE && p.Within? then AddTo(p.outer, AltOf(p.top.alts, p.top.cur))
    else if c == BAR then p.(top := Open.Open(p.top.alts + [p.top.cur], Eps))
    else if IsRep(c) then p.(top := p.top.(cur := RepeatLast(c, p.top.cur)))
    else if c == DOT then AddTo(p, AnyChar)
    else AddTo(p, Lit(c))
  }

  function ParseAll(p: Parse, s: seq<byte>): Parse
    decreases |s|
  {
    if s == [] then p else ParseAll(ParseChar(p, s[0]), s[1..])
  }

  const START: Parse := Outermost(Open.Open([], Eps))

  /** The regular expression that a pattern writes, unless a group is left open. */
  function ParsePattern(s: seq<byte>): Option<Regex> {
    var p := ParseAll(START, s);
    if p.Outermost? then Some(AltOf(p.top.alts, p.top.cur)) else None
  }

  lemma {:induction false} ParseStep(p: Parse, s: seq<byte>, t: seq<byte>)
    ensures ParseAll(p, s + t) == ParseAll(ParseAll(p, s), t)
    decreases |s|
  {
    if s == [] {
      assert s + t == t;
    } else {
      assert (s + t)[0] == s[0] && (s + t)[1..] == s[1..] + t;
      ParseStep(ParseChar(p, s[0]), s[1..], t);
    }
  }

  // ----- Repetition -----

  lemma {:induction false} FlatAppend(a: seq<seq<byte>>, b: seq<seq<byte>>)
    ensures Flat(a + b) == Flat(a) + Flat(b)
  {
    if a == [] {
      assert a + b == b;
    } else {
      assert (a + b)[0] == a[0] && (a + b)[1..] == a[1..] + b;
      FlatAppend(a[1..], b);
    }
  }

  lemma FlatOne(s: seq<byte>)
    ensures Flat([s]) == s
  {
    assert [s][1..] == [];
  }

  lemma RepIntro(z: bool, m: bool, r: Regex, ps: seq<seq<byte>>)
    requires Allowed(z, m, |ps|) && Pieces(r, ps)
    ensures Matches(Rep(z, m, r), Flat(ps))
  {
  }

  lemma RepElim(z: bool, m: bool, r: Regex, s: seq<byte>) returns (ps: seq<seq<byte>>)
    requires Matches(Rep(z, m, r), s)
    ensures Allowed(z, m, |ps|) && Flat(ps) == s && Pieces(r, ps)
  {
    ps :| Allowed(z, m, |ps|) && Flat(ps) == s && forall p :: p in ps ==> Matches(r, p);
  }

  /** The pieces of the pieces. */
  lemma {:induction false} Refine(z: bool, m: bool, r: Regex, qs: seq<seq<byte>>) returns (ps: seq<seq<byte>>)
    requires Pieces(Rep(z, m, r), qs)
    ensures Flat(ps) == Flat(qs) && Pieces(r, ps)
    ensures |ps| == 0 ==> z || qs == []
    ensures qs == [] ==> ps == []
    ensures |ps| > 1 ==> m || |qs| > 1
  {
    if qs == [] {
      return [];
    }
    assert qs[0] in qs;
    var first := RepElim(z, m, r, qs[0]);
    var rest := Refine(z, m, r, qs[1..]);
    ps := first + rest;
    FlatAppend(first, rest);
  }

  lemma SplitReps(z: bool, m: bool, z': bool, m': bool, r: Regex, ps: seq<seq<byte>>)
    requires Allowed(z || z', m || m', |ps|) && Pieces(r, ps)
    ensures Matches(Rep(z', m', Rep(z, m, r)), Flat(ps))
  {
    var s := Flat(ps);
    if |ps| == 0 && !z {
      RepIntro(z', m', Rep(z, m, r), []);
    } else if |ps| > 1 && !m {
      forall p | p in ps ensures Matches(Rep(z, m, r), p) {
        FlatOne(p);
        RepIntro(z, m, r, [p]);
      }
      RepIntro(z', m', Rep(z, m, r), ps);
    } else {
      RepIntro(z, m, r, ps);
      FlatOne(s);
      RepIntro(z', m', Rep(z, m, r), [s]);
    }
  }

  /** Two repetitions in a row are one. */
  lemma RepRep(z: bool, m: bool, z': bool, m': bool, r: Regex, s: seq<byte>)
    ensures Matches(Rep(z', m', Rep(z, m, r)), s) <==> Matches(Rep(z || z', m || m', r), s)
  {
    if Matches(Rep(z', m', Rep(z, m, r)), s) {
      var qs := RepElim(z', m', Rep(z, m, r), s);
      var ps := Refine(z, m, r, qs);
      RepIntro(z || z', m || m', r, ps);
    }
    if Matches(Rep(z || z', m || m', r), s) {
      var ps := RepElim(z || z', m || m', r, s);
      SplitReps(z, m, z', m', r, ps);
    }
  }

  /** A run of repetition characters, innermost first. */
  function Reps(ops: seq<byte>, r: Regex): Regex
    requires forall c :: c in ops ==> IsRep(c)
  {
    if ops == [] then r
    else Rep(ops[|ops| - 1] != PLUS, ops[|ops| - 1] != QUESTION, Reps(ops[..|ops| - 1], r))
  }

  predicate ZeroOk(ops: seq<byte>) {
    exists c :: c in ops && c != PLUS
  }

  predicate ManyOk(ops: seq<byte>) {
    exists c :: c in ops && c != QUESTION
  }

  lemma RepOnce(r: Regex, s: seq<byte>)
    requires Matches(r, s)
    ensures Matches(Rep(false, false, r), s)
  {
    FlatOne(s);
    RepIntro(false, false, r, [s]);
  }

  lemma RepOnceOnly(r: Regex, s: seq<byte>)
    requires Matches(Rep(false, false, r), s)
    ensures Matches(r, s)
  {
    var ps := RepElim(false, false, r, s);
    FlatOne(ps[0]);
    assert ps == [ps[0]];
  }

  lemma RepCong(z: bool, m: bool, r: Regex, r': Regex, s: seq<byte>)
    requires forall t :: Matches(r, t) ==> Matches(r', t)
    requires Matches(Rep(z, m, r), s)
    ensures Matches(Rep(z, m, r'), s)
  {
    var ps := RepElim(z, m, r, s);
    RepIntro(z, m, r', ps);
  }

  lemma OpsSnoc(front: seq<byte>, last: byte)
    ensures ZeroOk(front + [last]) == (ZeroOk(front) || last != PLUS)
    ensures ManyOk(front + [last]) == (ManyOk(front) || last != QUESTION)
  {
    assert last in front + [last];
    if ZeroOk(front) {
      var c :| c in front && c != PLUS;
      assert c in front + [last];
    }
    if ManyOk(front) {
      var c :| c in front && c != QUESTION;
      assert c in front + [last];
    }
  }

  /** A run of repetition characters means the one repetition it is collapsed to. */
  lemma {:induction false} Collapse(ops: seq<byte>, r: Regex, s: seq<byte>)
    requires forall c :: c in ops ==> IsRep(c)
    ensures Matches(Reps(ops, r), s) <==> Matches(Rep(ZeroOk(ops), ManyOk(ops), r), s)
    decreases |ops|
  {
    if ops == [] {
      if Matches(r, s) {
        RepOnce(r, s);
      }
      if Matches(Rep(false, false, r), s) {
        RepOnceOnly(r, s);
      }
      return;
    }
    var front, last := ops[..|ops| - 1], ops[|ops| - 1];
    assert ops == front + [last];
    var z, m := ZeroOk(front), ManyOk(front);
    OpsSnoc(front, last);
    forall t ensures Matches(Reps(front, r), t) <==> Matches(Rep(z, m, r), t) {
      Collapse(front, r, t);
    }
    RepRep(z, m, last != PLUS, last != QUESTION, r, s);
    if Matches(Reps(ops, r), s) {
      RepCong(last != PLUS, last != QUESTION, Reps(front, r), Rep(z, m, r), s);
    }
    if Matches(Rep(ZeroOk(ops), ManyOk(ops), r), s) {
      RepCong(last != PLUS, last != QUESTION, Rep(z, m, r), Reps(front, r), s);
    }
  }

  // ----- The operators by their characters -----

  predicate Ordinary(c: byte) {
    c != '(' as int && c != ')' as int && c != '*' as int && c != '+' as int && c != '.' as int && c != '?' as int && c != '|' as int
  }

  lemma EpsCat(r: Regex, w: seq<byte>)
    ensures Matches(Cat(Eps, r), w) <==> Matches(r, w)
  {
    assert w[..0] == [] && w[0..] == w;
  }

  lemma ParseOne(c: byte)
    ensures ParseAll(START, [c]) == ParseChar(START, c)
  {
    assert [c][1..] == [];
    var p := ParseChar(START, c);
    assert ParseAll(p, []) == p;
  }

  lemma ParseTwo(c: byte, d: byte)
    ensures ParseAll(START, [c, d]) == ParseChar(ParseChar(START, c), d)
  {
    assert [c, d] == [c] + [d];
    ParseStep(START, [c], [d]);
    ParseOne(c);
    var p := ParseChar(START, c);
    assert [d][1..] == [] && ParseAll(ParseChar(p, d), []) == ParseChar(p, d);
  }

  lemma {:induction false} LitPieces(c: byte, ps: seq<seq<byte>>)
    requires Pieces(Lit(c), ps)
    ensures |Flat(ps)| == |ps| && forall i :: 0 <= i < |ps| ==> Flat(ps)[i] == c
  {
    if ps != [] {
      assert ps[0] in ps && Pieces(Lit(c), ps[1..]);
      LitPieces(c, ps[1..]);
    }
  }

  lemma {:induction false} LitSplit(c: byte, w: seq<byte>) returns (ps: seq<seq<byte>>)
    requires forall i :: 0 <= i < |w| ==> w[i] == c
    ensures |ps| == |w| && Flat(ps) == w && Pieces(Lit(c), ps)
  {
    if w == [] {
      return [];
    }
    var rest := LitSplit(c, w[1..]);
    ps := [[c]] + rest;
    assert ps[1..] == rest && w == [c] + w[1..];
  }

  lemma LitRep(z: bool, m: bool, c: byte, w: seq<byte>)
    ensures Matches(Rep(z, m, Lit(c)), w) <==> Allowed(z, m, |w|) && forall i :: 0 <= i < |w| ==> w[i] == c
  {
    if Matches(Rep(z, m, Lit(c)), w) {
      var ps := RepElim(z, m, Lit(c), w);
      LitPieces(c, ps);
    }
    if Allowed(z, m, |w|) && forall i :: 0 <= i < |w| ==> w[i] == c {
      var ps := LitSplit(c, w);
      RepIntro(z, m, Lit(c), ps);
    }
  }

  /** `c*` is any number of `c`, `c+` at least one, `c?` at most one. */
  lemma RepetitionLanguages(c: byte, w: seq<byte>)
    requires Ordinary(c)
    ensures var star, plus, opt := ParsePattern([c, '*' as int]), ParsePattern([c, '+' as int]), ParsePattern([c, '?' as int]);
      && star.Some? && (Matches(star.value, w) <==> forall i :: 0 <= i < |w| ==> w[i] == c)
      && plus.Some? && (Matches(plus.value, w) <==> w != [] && forall i :: 0 <= i < |w| ==> w[i] == c)
      && opt.Some? && (Matches(opt.value, w) <==> w == [] || w == [c])
  {
    hide Matches;
    ParseTwo(c, '*' as int);
    ParseTwo(c, '+' as int);
    ParseTwo(c, '?' as int);
    EpsCat(Rep(true, true, Lit(c)), w);
    EpsCat(Rep(false, true, Lit(c)), w);
    EpsCat(Rep(true, false, Lit(c)), w);
    LitRep(true, true, c, w);
    LitRep(false, true, c, w);
    LitRep(true, false, c, w);
  }

  /** `.` is any one character but the null byte. */
  lemma DotLanguage(w: seq<byte>)
    ensures var dot := ParsePattern(['.' as int]); dot.Some? && (Matches(dot.value, w) <==> |w| == 1 && w[0] != 0)
  {
    ParseOne('.' as int);
    EpsCat(AnyChar, w);
    assert Matches(AnyChar, w) <==> |w| == 1 && w[0] != 0;
    hide Matches;
  }

  /** `c|d` is either. */
  lemma EitherLanguage(c: byte, d: byte, w: seq<byte>)
    requires Ordinary(c) && Ordinary(d)
    ensures var either := ParsePattern([c, '|' as int, d]); either.Some? && (Matches(either.value, w) <==> w == [c] || w == [d])
  {
    var a, b := Cat(Eps, Lit(c)), Cat(Eps, Lit(d));
    AltMeans(a, b, w);
    EpsCat(Lit(c), w);
    EpsCat(Lit(d), w);
    assert (Matches(Lit(c), w) <==> w == [c]) && (Matches(Lit(d), w) <==> w == [d]);
    hide Matches;
    ParseThree(c, '|' as int, d);
    assert ([] + [a])[1..] == [] && AltOf([] + [a], b) == Alt(a, b);
  }

  lemma AltMeans(a: Regex, b: Regex, w: seq<byte>)
    ensures Matches(Alt(a, b), w) <==> Matches(a, w) || Matches(b, w)
  {
  }

  /** A group is what is in it. */
  lemma GroupLanguage(c: byte, w: seq<byte>)
    requires Ordinary(c)
    ensures var group := ParsePattern(['(' as int, c, ')' as int]); group.Some? && (Matches(group.value, w) <==> w == [c])
  {
    EpsCat(Lit(c), w);
    EpsCat(Cat(Eps, Lit(c)), w);
    assert Matches(Lit(c), w) <==> w == [c];
    hide Matches;
    ParseThree('(' as int, c, ')' as int);
  }

  lemma ParseThree(c: byte, d: byte, e: byte)
    ensures ParseAll(START, [c, d, e]) == ParseChar(ParseChar(ParseChar(START, c), d), e)
  {
    assert [c, d, e] == [c, d] + [e];
    ParseStep(START, [c, d], [e]);
    ParseTwo(c, d);
    var p := ParseChar(ParseChar(START, c), d);
    assert [e][1..] == [] && ParseAll(ParseChar(p, e), []) == ParseChar(p, e);
  }
}
