/**
 DNS messages of lib/rfc1035.c: packing a question, unpacking any message with compressed
 names, comparing questions, and which host names come back.
 */
module Dns {
  import opened Basics

  const DOT: byte := 46
  const MAXLABELSZ := 63
  const MAXHOSTNAMESZ := 256
  const TYPE_A := 1
  const TYPE_PTR := 12
  const CLASS_IN := 1

  // ----- Headers -----

  datatype Header = Header(id: int, qr: int, opcode: int, aa: int, tc: int, rd: int, ra: int, rcode: int,
                           qdcount: int, ancount: int, nscount: int, arcount: int)

  predicate Short(x: int) {
    0 <= x < 0x1_0000
  }

  predicate Bit(x: int) {
    0 <= x < 2
  }

  /** The widths of the fields. */
  predicate HeaderOk(h: Header) {
    && Short(h.id) && Bit(h.qr) && 0 <= h.opcode < 16 && Bit(h.aa) && Bit(h.tc) && Bit(h.rd) && Bit(h.ra) && 0 <= h.rcode < 16
    && Short(h.qdcount) && Short(h.ancount) && Short(h.nscount) && Short(h.arcount)
  }

  /** htons. */
  function Net(x: int): (s: seq<byte>)
    requires Short(x)
    ensures |s| == 2
  {
    [x / 256, x % 256]
  }

  function NetAt(buf: seq<byte>, at: int): (x: int)
    requires 0 <= at && at + 2 <= |buf|
    ensures Short(x)
  {
    256 * buf[at] as int + buf[at + 1]
  }

  lemma NetRoundTrip(buf: seq<byte>, at: int, x: int)
    requires Short(x) && Holds(buf, at, Net(x))
    ensures NetAt(buf, at) == x
  {
    HoldsAt(buf, at, Net(x), 0);
    HoldsAt(buf, at, Net(x), 1);
  }

  function Flags(h: Header): (t: int)
    requires HeaderOk(h)
    ensures Short(t)
  {
    h.qr * 0x8000 + h.opcode * 0x800 + h.aa * 0x400 + h.tc * 0x200 + h.rd * 0x100 + h.ra * 0x80 + h.rcode
  }

  /** rfc1035HeaderPack: section 4.1.1 of RFC 1035. */
  function HeaderBytes(h: Header): (s: seq<byte>)
    requires HeaderOk(h)
    ensures |s| == 12
  {
    Net(h.id) + Net(Flags(h)) + Net(h.qdcount) + Net(h.ancount) + Net(h.nscount) + Net(h.arcount)
  }

  /** rfc1035HeaderUnpack. */
  function HeaderUnpack(buf: seq<byte>): (r: Option<Header>)
    ensures r.Some? <==> |buf| >= 12
    ensures r.Some? ==> HeaderOk(r.value)
  {
    if |buf| < 12 then None
    else
      var t := NetAt(buf, 2);
      Some(Header(NetAt(buf, 0), t / 0x8000 % 2, t / 0x800 % 16, t / 0x400 % 2, t / 0x200 % 2, t / 0x100 % 2, t / 0x80 % 2, t % 16,
                  NetAt(buf, 4), NetAt(buf, 6), NetAt(buf, 8), NetAt(buf, 10)))
  }

  lemma FlagsRoundTrip(h: Header)
    requires HeaderOk(h)
    ensures var t := Flags(h);
      && t / 0x8000 % 2 == h.qr && t / 0x800 % 16 == h.opcode && t / 0x400 % 2 == h.aa && t / 0x200 % 2 == h.tc
      && t / 0x100 % 2 == h.rd && t / 0x80 % 2 == h.ra && t % 16 == h.rcode
  {
    HighFlags(h);
    LowFlags(h);
  }

  lemma HighFlags(h: Header)
    requires HeaderOk(h)
    ensures var t := Flags(h); t / 0x8000 % 2 == h.qr && t / 0x800 % 16 == h.opcode && t / 0x400 % 2 == h.aa && t / 0x200 % 2 == h.tc
  {
    var t := Flags(h);
    assert t / 0x8000 == h.qr;
    assert t / 0x800 == 16 * h.qr + h.opcode;
    assert t / 0x400 == 2 * (16 * h.qr + h.opcode) + h.aa;
    assert t / 0x200 == 2 * (t / 0x400) + h.tc;
  }

  lemma LowFlags(h: Header)
    requires HeaderOk(h)
    ensures var t := Flags(h); t / 0x100 % 2 == h.rd && t / 0x80 % 2 == h.ra && t % 16 == h.rcode
  {
    var t := Flags(h);
    var u := 64 * h.qr + 4 * h.opcode + 2 * h.aa + h.tc;
    assert t == 0x100 * (2 * u + h.rd) + (h.ra * 0x80 + h.rcode);
    assert t / 0x100 == 2 * u + h.rd;
    assert t / 0x80 == 2 * (2 * u + h.rd) + h.ra;
    assert t == 16 * (8 * (2 * (2 * u + h.rd) + h.ra)) + h.rcode;
  }

  /** Bit by bit, as in section 4.1.1 of RFC 1035: what each field of a received header is. */
  lemma HeaderLayout(buf: seq<byte>)
    requires |buf| >= 12
    ensures var h := HeaderUnpack(buf).value;
      && buf[2] as int == 128 * h.qr + 8 * h.opcode + 4 * h.aa + 2 * h.tc + h.rd
      && buf[3] as int == 128 * h.ra + 16 * (buf[3] / 16 % 8) as int + h.rcode
      && h.id == 256 * buf[0] as int + buf[1] && h.qdcount == 256 * buf[4] as int + buf[5] && h.ancount == 256 * buf[6] as int + buf[7]
      && h.nscount == 256 * buf[8] as int + buf[9] && h.arcount == 256 * buf[10] as int + buf[11]
  {
    HighBits(buf[2], buf[3]);
    LowBits(buf[2], buf[3]);
    ByteBits(buf[2]);
  }

  lemma HighBits(hi: int, lo: int)
    requires 0 <= lo < 256
    ensures var t := 256 * hi + lo;
      t / 0x100 == hi && t / 0x200 == hi / 2 && t / 0x400 == hi / 4 && t / 0x800 == hi / 8 && t / 0x8000 == hi / 128
  {
  }

  lemma LowBits(hi: int, lo: int)
    requires 0 <= lo < 256
    ensures var t := 256 * hi + lo; lo == 128 * (t / 0x80 % 2) + 16 * (lo / 16 % 8) + t % 16
  {
    var t := 256 * hi + lo;
    assert t / 0x80 == 2 * hi + lo / 128;
    assert t % 16 == lo % 16;
  }

  lemma ByteBits(x: int)
    requires 0 <= x < 256
    ensures x == 128 * (x / 128 % 2) + 8 * (x / 8 % 16) + 4 * (x / 4 % 2) + 2 * (x / 2 % 2) + x % 2
  {
  }

  lemma HeaderRoundTrip(buf: seq<byte>, h: Header)
    requires HeaderOk(h) && Holds(buf, 0, HeaderBytes(h))
    ensures HeaderUnpack(buf) == Some(h)
  {
    hide Net, Flags;
    var a, b, c, d, e, f := Net(h.id), Net(Flags(h)), Net(h.qdcount), Net(h.ancount), Net(h.nscount), Net(h.arcount);
    HoldsSplit(buf, 0, a + b + c + d + e, f);
    HoldsSplit(buf, 0, a + b + c + d, e);
    HoldsSplit(buf, 0, a + b + c, d);
    HoldsSplit(buf, 0, a + b, c);
    HoldsSplit(buf, 0, a, b);
    NetRoundTrip(buf, 0, h.id);
    NetRoundTrip(buf, 2, Flags(h));
    NetRoundTrip(buf, 4, h.qdcount);
    NetRoundTrip(buf, 6, h.ancount);
    NetRoundTrip(buf, 8, h.nscount);
    NetRoundTrip(buf, 10, h.arcount);
    FlagsRoundTrip(h);
  }

  // ----- Names -----

  type Label = seq<byte>

  predicate LabelOk(l: Label) {
    1 <= |l| <= MAXLABELSZ && DOT !in l
  }

  predicate LabelsOk(ls: seq<Label>) {
    forall i :: 0 <= i < |ls| ==> LabelOk(ls[i])
  }

  /** The labels as they appear in a host name, each with its dot. */
  function Dotted(ls: seq<Label>): seq<byte> {
    if ls == [] then [] else ls[0] + [DOT] + Dotted(ls[1..])
  }

  /** A canonical host name. */
  function HostName(ls: seq<Label>): seq<byte> {
    if ls == [] then [] else DotEnds(ls); Dotted(ls)[..|Dotted(ls)| - 1]
  }

  lemma DotEnds(ls: seq<Label>)
    ensures ls != [] ==> Dotted(ls) != []
  {
  }

  /** The labels with their lengths, and the null label. */
  function Packed(ls: seq<Label>): seq<byte>
    requires LabelsOk(ls)
  {
    if ls == [] then [0] else [|ls[0]|] + ls[0] + Packed(ls[1..])
  }

  lemma {:induction false} PackedSize(ls: seq<Label>)
    requires LabelsOk(ls)
    ensures |Packed(ls)| == |Dotted(ls)| + 1
  {
    if ls != [] {
      PackedSize(ls[1..]);
    }
  }

  lemma {:induction false} DottedSnoc(ls: seq<Label>, l: Label)
    ensures Dotted(ls + [l]) == Dotted(ls) + (l + [DOT])
    decreases |ls|
  {
    if ls == [] {
      assert ls + [l] == [l] && [l][1..] == [];
    } else {
      assert (ls + [l])[1..] == ls[1..] + [l];
      DottedSnoc(ls[1..], l);
    }
  }

  lemma {:induction false} DottedAppend(a: seq<Label>, b: seq<Label>)
    ensures Dotted(a + b) == Dotted(a) + Dotted(b)
    decreases |a|
  {
    if a == [] {
      assert a + b == b;
    } else {
      assert (a + b)[1..] == a[1..] + b;
      DottedAppend(a[1..], b);
      assert Dotted(a + b) == a[0] + [DOT] + (Dotted(a[1..]) + Dotted(b));
    }
  }

  /** What the bytes at a place of a message spell, compression pointers followed at most 65 deep. */
  function Spelled(buf: seq<byte>, at: nat, depth: nat): Option<seq<Label>>
    requires depth <= 65
    decreases 65 - depth, |buf| - at
  {
    if at >= |buf| then None
    else if buf[at] > 191 then
      if depth > 64 || at + 2 > |buf| || NetAt(buf, at) % 0x4000 >= |buf| then None
      else Spelled(buf, NetAt(buf, at) % 0x4000, depth + 1)
    else if buf[at] > MAXLABELSZ then None
    else if buf[at] == 0 then Some([])
    else
      var next := at + 1 + buf[at];
      if next >= |buf| then None else Prefixed([buf[at + 1..next]], Spelled(buf, next, depth))
  }

  function Prefixed(front: seq<Label>, rest: Option<seq<Label>>): Option<seq<Label>> {
    if rest.None? then None else Some(front + rest.value)
  }

  lemma PrefixedTwice(a: seq<Label>, b: seq<Label>, rest: Option<seq<Label>>)
    ensures Prefixed(a, Prefixed(b, rest)) == Prefixed(a + b, rest)
  {
    if rest.Some? {
      assert a + (b + rest.value) == (a + b) + rest.value;
    }
  }

  /** The place after a name: after its null label, or after its first compression pointer. */
  function EndOf(buf: seq<byte>, at: nat): nat
    decreases |buf| - at
  {
    if at >= |buf| then at
    else if buf[at] > 191 then at + 2
    else if buf[at] == 0 then at + 1
    else EndOf(buf, at + 1 + buf[at])
  }

  predicate Compressed(buf: seq<byte>, at: nat)
    decreases |buf| - at
  {
    at < |buf| && (buf[at] > 191 || (buf[at] != 0 && Compressed(buf, at + 1 + buf[at])))
  }

  /** A name of at most `ns` bytes with its dots can be read: up to its end, or until that many
      bytes are reached exactly. */
  predicate Readable(buf: seq<byte>, at: nat, ns: nat, depth: nat)
    requires depth <= 65
    decreases 65 - depth, |buf| - at
  {
    ns == 0 ||
    (at < |buf| &&
     if buf[at] > 191 then
       depth <= 64 && at + 2 <= |buf| && NetAt(buf, at) % 0x4000 < |buf| && Readable(buf, NetAt(buf, at) % 0x4000, ns, depth + 1)
     else if buf[at] == 0 then true
     else
       var n := buf[at] + 1;
       n <= MAXLABELSZ + 1 && n <= ns && at + n < |buf| && Readable(buf, at + n, ns - n, depth))
  }

  /** Where reading it ends. */
  function Stop(buf: seq<byte>, at: nat, ns: nat): nat
    decreases |buf| - at
  {
    if ns == 0 || at >= |buf| then at
    else if buf[at] > 191 then at + 2
    else if buf[at] == 0 then at + 1
    else if buf[at] + 1 > ns then at
    else Stop(buf, at + 1 + buf[at], ns - 1 - buf[at])
  }

  /** The outcome of unpacking a name into `ns` bytes. */
  datatype Unpacked = Unpacked(ok: bool, name: seq<byte>, off: nat, length: nat)

  /** The whole name is there. */
  predicate WholeName(buf: seq<byte>, at: nat, ls: seq<Label>, u: Unpacked) {
    && u.ok && u.off == EndOf(buf, at) && u.length == |Dotted(ls)|
    && (u.name == HostName(ls) || (Compressed(buf, at) && u.name == Dotted(ls)))
  }

  /** The buffer filled up at a label, before the end of the name was seen. */
  predicate CutName(buf: seq<byte>, at: nat, ls: seq<Label>, ns: nat, cut: nat, u: Unpacked) {
    && u.ok && |u.name| == ns - 1 && cut <= |ls| && |Dotted(ls[..cut])| == ns
    && Dotted(ls[..cut]) == u.name + [DOT]
    && (!Compressed(buf, at) ==> u.off == at + ns)
  }

  lemma {:induction false} HostNameDot(ls: seq<Label>)
    ensures ls != [] ==> Dotted(ls) == HostName(ls) + [DOT]
  {
    if ls != [] {
      if ls[1..] == [] {
        assert Dotted(ls) == ls[0] + [DOT];
      } else {
        HostNameDot(ls[1..]);
        assert Dotted(ls) == (ls[0] + [DOT] + HostName(ls[1..])) + [DOT];
      }
    }
  }

  lemma HostNameAppend(a: seq<Label>, b: seq<Label>)
    requires b != []
    ensures HostName(a + b) == Dotted(a) + HostName(b)
  {
    DottedAppend(a, b);
    HostNameDot(a + b);
    HostNameDot(b);
    assert HostName(a + b) + [DOT] == (Dotted(a) + HostName(b)) + [DOT];
    assert (HostName(a + b) + [DOT])[..|HostName(a + b)|] == HostName(a + b);
  }

  lemma SpelledStep(buf: seq<byte>, at: nat, depth: nat)
    requires depth <= 65 && at < |buf| && 0 < buf[at] <= MAXLABELSZ
    ensures var next := at + 1 + buf[at];
      && EndOf(buf, at) == EndOf(buf, next) && Compressed(buf, at) == Compressed(buf, next)
      && Spelled(buf, at, depth)
         == if next >= |buf| then None else Prefixed([buf[at + 1..next]], Spelled(buf, next, depth))
  {
  }

  /** The labels already copied, and the place they end at. */
  ghost predicate Copied(buf: seq<byte>, at: nat, off: nat, depth: nat, done: seq<Label>, out: seq<byte>)
    requires depth <= 65
  {
    && off == at + |out| && off <= |buf| && out == Dotted(done)
    && EndOf(buf, at) == EndOf(buf, off) && Compressed(buf, at) == Compressed(buf, off)
    && Spelled(buf, at, depth) == Prefixed(done, Spelled(buf, off, depth))
  }

  lemma CopyOne(buf: seq<byte>, at: nat, off: nat, depth: nat, done: seq<Label>, out: seq<byte>)
    requires depth <= 65 && Copied(buf, at, off, depth, done, out)
    requires off < |buf| && 0 < buf[off] <= MAXLABELSZ && off + 1 + buf[off] < |buf|
    ensures var next := off + 1 + buf[off]; var l := buf[off + 1..next];
      Copied(buf, at, next, depth, done + [l], out + l + [DOT])
  {
    hide Spelled, EndOf, Compressed, Dotted, Prefixed;
    var next := off + 1 + buf[off];
    var l := buf[off + 1..next];
    SpelledStep(buf, off, depth);
    PrefixedTwice(done, [l], Spelled(buf, next, depth));
    DottedSnoc(done, l);
    assert out + l + [DOT] == out + (l + [DOT]);
  }

  /** What unpacking at a place owes. */
  ghost predicate Correct(buf: seq<byte>, at: nat, ns: nat, depth: nat, cut: nat, u: Unpacked)
    requires depth <= 65
  {
    var ls := Spelled(buf, at, depth);
    && (u.ok ==> |u.name| < ns && at < u.off <= |buf| && u.length <= ns)
    && (u.ok ==> |u.name| == ns - 1 || ls.Some?)
    && (ls.Some? && |Dotted(ls.value)| < ns ==> WholeName(buf, at, ls.value, u))
    && (ls.Some? && |Dotted(ls.value)| >= ns && u.ok ==> CutName(buf, at, ls.value, ns, cut, u))
  }

  const FAILED := Unpacked(false, [], 0, 0)

  /** The string in the name buffer once the last dot has been overwritten. */
  function Ended(out: seq<byte>): (name: seq<byte>)
    ensures |name| == if out == [] then 0 else |out| - 1
  {
    if out == [] then [] else out[..|out| - 1]
  }

  lemma EndedDotted(ls: seq<Label>)
    ensures Ended(Dotted(ls)) == HostName(ls)
  {
    HostNameDot(ls);
  }

  lemma AtNull(buf: seq<byte>, at: nat, off: nat, ns: nat, depth: nat, done: seq<Label>, out: seq<byte>)
    requires depth <= 65 && Copied(buf, at, off, depth, done, out)
    requires off < |buf| && buf[off] == 0 && |out| < ns
    ensures Correct(buf, at, ns, depth, 0, Unpacked(true, Ended(out), off + 1, |out|))
  {
    hide Dotted, HostName;
    assert Spelled(buf, off, depth) == Some([]) && EndOf(buf, off) == off + 1;
    assert done + [] == done;
    EndedDotted(done);
  }

  lemma AtFull(buf: seq<byte>, at: nat, off: nat, ns: nat, depth: nat, done: seq<Label>, out: seq<byte>)
    requires depth <= 65 && Copied(buf, at, off, depth, done, out) && |out| == ns > 0
    ensures Correct(buf, at, ns, depth, |done|, Unpacked(true, Ended(out), off, ns))
  {
    hide Dotted, HostName, Spelled, EndOf, Compressed;
    var rest := Spelled(buf, off, depth);
    if rest.Some? {
      DottedAppend(done, rest.value);
      assert (done + rest.value)[..|done|] == done;
      EndedDotted(done);
      DottedNonempty(done);
      HostNameDot(done);
    }
  }

  lemma DottedNonempty(ls: seq<Label>)
    requires Dotted(ls) != []
    ensures ls != []
  {
  }

  lemma AtError(buf: seq<byte>, at: nat, off: nat, ns: nat, depth: nat, done: seq<Label>, out: seq<byte>)
    requires depth <= 65 && Copied(buf, at, off, depth, done, out) && Spelled(buf, off, depth).None?
    ensures Correct(buf, at, ns, depth, 0, FAILED)
  {
  }

  lemma AtLong(buf: seq<byte>, at: nat, off: nat, ns: nat, depth: nat, done: seq<Label>, out: seq<byte>)
    requires depth <= 65 && Copied(buf, at, off, depth, done, out)
    requires off < |buf| && 0 < buf[off] <= MAXLABELSZ && |out| + buf[off] + 1 > ns
    ensures Correct(buf, at, ns, depth, 0, FAILED)
  {
    hide Dotted, HostName, Spelled, EndOf, Compressed;
    SpelledStep(buf, off, depth);
    var next := off + 1 + buf[off];
    if next < |buf| && Spelled(buf, next, depth).Some? {
      var l, rest := buf[off + 1..next], Spelled(buf, next, depth).value;
      DottedAppend(done, [l] + rest);
      DottedAppend([l], rest);
      DottedOne(l);
    }
  }

  lemma DottedOne(l: Label)
    ensures Dotted([l]) == l + [DOT]
  {
    assert Dotted([l][1..]) == [];
  }

  lemma AtPointer(buf: seq<byte>, at: nat, off: nat, ns: nat, depth: nat, done: seq<Label>, out: seq<byte>, cut: nat, u: Unpacked)
    requires depth <= 64 && Copied(buf, at, off, depth, done, out) && |out| < ns
    requires off + 2 <= |buf| && buf[off] > 191 && NetAt(buf, off) % 0x4000 < |buf|
    requires Correct(buf, NetAt(buf, off) % 0x4000, ns - |out|, depth + 1, cut, u)
    ensures Correct(buf, at, ns, depth, |done| + cut,
              if u.ok then Unpacked(true, out + u.name, off + 2, |out| + u.length) else FAILED)
  {
    hide Dotted, HostName, Spelled;
    assert Spelled(buf, off, depth) == Spelled(buf, NetAt(buf, off) % 0x4000, depth + 1) by { PointerStep(buf, off, depth); }
    assert EndOf(buf, off) == off + 2 && Compressed(buf, off);
    if Spelled(buf, off, depth).Some? {
      var ls := Spelled(buf, off, depth).value;
      DottedAppend(done, ls);
      if |Dotted(ls)| < ns - |out| {
        PointerWhole(buf, NetAt(buf, off) % 0x4000, done, ls, u);
      } else if u.ok {
        DottedAppend(done, ls[..cut]);
        assert (done + ls)[..|done| + cut] == done + ls[..cut];
        assert out + (u.name + [DOT]) == (out + u.name) + [DOT];
      }
    }
  }

  lemma PointerStep(buf: seq<byte>, off: nat, depth: nat)
    requires depth <= 64 && off + 2 <= |buf| && buf[off] > 191 && NetAt(buf, off) % 0x4000 < |buf|
    ensures Spelled(buf, off, depth) == Spelled(buf, NetAt(buf, off) % 0x4000, depth + 1)
  {
  }

  lemma PointerWhole(buf: seq<byte>, ptr: nat, done: seq<Label>, ls: seq<Label>, u: Unpacked)
    requires WholeName(buf, ptr, ls, u)
    ensures Dotted(done) + u.name == HostName(done + ls) || Dotted(done) + u.name == Dotted(done + ls)
  {
    DottedAppend(done, ls);
    if ls != [] {
      HostNameAppend(done, ls);
    }
  }

  /**
   rfc1035NameUnpack: unpacks the name at `off` into a buffer of `ns` bytes.
   */
  method NameUnpack(buf: seq<byte>, off: nat, ns: nat, rdepth: nat) returns (u: Unpacked, ghost cut: nat)
    requires ns > 0 && rdepth <= 65 && off <= |buf|
    ensures Correct(buf, off, ns, rdepth, cut, u)
    ensures u.ok <==> Readable(buf, off, ns, rdepth)
    ensures u.ok ==> u.off == Stop(buf, off, ns)
    decreases 65 - rdepth
  {
    hide Spelled, EndOf, Compressed, Dotted, HostName, Correct, Copied, Prefixed;
    var p, out := off, [];
    ghost var done: seq<Label> := [];
    cut := 0;
    CopiedNone(buf, off, rdepth);
    while |out| < ns
      invariant |out| <= ns && p <= |buf| && Copied(buf, off, p, rdepth, done, out)
      invariant Readable(buf, off, ns, rdepth) <==> Readable(buf, p, ns - |out|, rdepth)
      invariant Stop(buf, off, ns) == Stop(buf, p, ns - |out|)
      decreases |buf| - p
    {
      if p >= |buf| {
        SpelledNone(buf, p, rdepth);
        AtError(buf, off, p, ns, rdepth, done, out);
        return FAILED, 0;
      }
      var c := buf[p];
      if c > 191 {
        if rdepth > 64 || p + 2 > |buf| || NetAt(buf, p) % 0x4000 >= |buf| {
          SpelledNone(buf, p, rdepth);
          AtError(buf, off, p, ns, rdepth, done, out);
          return FAILED, 0;
        }
        u, cut := NameUnpack(buf, NetAt(buf, p) % 0x4000, ns - |out|, rdepth + 1);
        AtPointer(buf, off, p, ns, rdepth, done, out, cut, u);
        u := if u.ok then Unpacked(true, out + u.name, p + 2, |out| + u.length) else FAILED;
        cut := |done| + cut;
        return;
      } else if c > MAXLABELSZ {
        SpelledNone(buf, p, rdepth);
        AtError(buf, off, p, ns, rdepth, done, out);
        return FAILED, 0;
      }
      if c == 0 {
        AtNull(buf, off, p, ns, rdepth, done, out);
        return Unpacked(true, Ended(out), p + 1, |out|), 0;
      }
      if c > ns - |out| - 1 {
        AtLong(buf, off, p, ns, rdepth, done, out);
        return FAILED, 0;
      }
      if p + 1 + c >= |buf| {
        SpelledNone(buf, p, rdepth);
        AtError(buf, off, p, ns, rdepth, done, out);
        return FAILED, 0;
      }
      CopyOne(buf, off, p, rdepth, done, out);
      var l := buf[p + 1..p + 1 + c];
      p, out, done := p + 1 + c, out + l + [DOT], done + [l];
    }
    AtFull(buf, off, p, ns, rdepth, done, out);
    u, cut := Unpacked(true, Ended(out), p, ns), |done|;
  }

  lemma CopiedNone(buf: seq<byte>, off: nat, depth: nat)
    requires depth <= 65 && off <= |buf|
    ensures Copied(buf, off, off, depth, [], [])
  {
    var rest := Spelled(buf, off, depth);
    assert rest.Some? ==> [] + rest.value == rest.value;
  }

  lemma SpelledNone(buf: seq<byte>, p: nat, depth: nat)
    requires depth <= 65
    requires p < |buf| ==>
      if buf[p] > 191 then depth > 64 || p + 2 > |buf| || NetAt(buf, p) % 0x4000 >= |buf|
      else buf[p] > MAXLABELSZ || (buf[p] != 0 && p + 1 + buf[p] >= |buf|)
    ensures Spelled(buf, p, depth).None?
  {
  }

  // ----- Packing a question -----

  /** The bytes before the first dot. */
  function Span(s: seq<byte>): (n: nat)
    ensures n <= |s| && DOT !in s[..n] && (n < |s| ==> s[n] == DOT)
  {
    if s == [] || s[0] == DOT then 0
    else
      assert s[..1 + Span(s[1..])] == [s[0]] + s[1..][..Span(s[1..])];
      1 + Span(s[1..])
  }

  /** The tokens of strtok with the delimiter "." */
  function Tokens(s: seq<byte>): (ls: seq<Label>)
    ensures forall i :: 0 <= i < |ls| ==> ls[i] != [] && DOT !in ls[i]
    decreases |s|
  {
    if s == [] then []
    else if s[0] == DOT then Tokens(s[1..])
    else [s[..Span(s)]] + Tokens(s[Span(s)..])
  }

  function Clip(l: Label): Label {
    if |l| > MAXLABELSZ then l[..MAXLABELSZ] else l
  }

  /** The labels packed for a host name: those over 63 bytes are shortened. */
  function Clipped(ls: seq<Label>): (r: seq<Label>)
    ensures |r| == |ls| && forall i :: 0 <= i < |r| ==> r[i] == Clip(ls[i])
  {
    seq(|ls|, i requires 0 <= i < |ls| => Clip(ls[i]))
  }

  lemma ClippedOk(ls: seq<Label>)
    requires forall i :: 0 <= i < |ls| ==> ls[i] != [] && DOT !in ls[i]
    ensures LabelsOk(Clipped(ls))
  {
    forall i | 0 <= i < |ls| ensures LabelOk(Clip(ls[i])) {
      assert ls[i] != [] && DOT !in ls[i];
    }
  }

  function HostLabels(name: seq<byte>): (ls: seq<Label>)
    ensures LabelsOk(ls)
  {
    ClippedOk(Tokens(name));
    Clipped(Tokens(name))
  }

  /** The packed form of a host name. */
  function NameBytes(name: seq<byte>): seq<byte> {
    Packed(HostLabels(name))
  }

  /** rfc1035NamePack: the labels strtok finds, one after another. */
  method NamePack(name: seq<byte>) returns (out: seq<byte>)
    ensures out == NameBytes(name)
  {
    hide NameBytes, Clip;
    out := [];
    var p := 0;
    assert name[0..] == name;
    while true
      invariant 0 <= p <= |name| && NameBytes(name) == out + NameBytes(name[p..])
      decreases |name| - p
    {
      p := SkipDots(name, p);
      if p == |name| {
        NothingLeft(name[p..]);
        return out + [0];
      }
      var q := TokenEnd(name, p);
      var l := Clip(name[p..q]);
      NextToken(name[p..], q - p);
      assert name[p..][..q - p] == name[p..q] && name[p..][q - p..] == name[q..];
      assert (out + ([|l|] + l)) + NameBytes(name[q..]) == out + (([|l|] + l) + NameBytes(name[q..]));
      out, p := out + ([|l|] + l), q;
    }
  }

  method SkipDots(name: seq<byte>, from: nat) returns (p: nat)
    requires from <= |name|
    ensures from <= p <= |name| && (p < |name| ==> name[p] != DOT)
    ensures NameBytes(name[p..]) == NameBytes(name[from..])
  {
    p := from;
    while p < |name| && name[p] == DOT
      invariant from <= p <= |name| && NameBytes(name[p..]) == NameBytes(name[from..])
    {
      assert name[p..][1..] == name[p + 1..];
      p := p + 1;
    }
  }

  method TokenEnd(name: seq<byte>, from: nat) returns (q: nat)
    requires from < |name| && name[from] != DOT
    ensures from < q <= |name| && DOT !in name[from..q] && (q < |name| ==> name[q] == DOT)
  {
    q := from;
    while q < |name| && name[q] != DOT
      invariant from <= q <= |name| && DOT !in name[from..q]
    {
      assert name[from..q + 1] == name[from..q] + [name[q]];
      q := q + 1;
    }
  }

  lemma NothingLeft(s: seq<byte>)
    requires s == []
    ensures NameBytes(s) == [0]
  {
  }

  lemma NextToken(s: seq<byte>, n: nat)
    requires 0 < n <= |s| && DOT !in s[..n] && (n < |s| ==> s[n] == DOT)
    ensures var l := Clip(s[..n]); |l| < 256 && NameBytes(s) == ([|l|] + l) + NameBytes(s[n..])
  {
    FirstToken(s, n);
    PackFirst(s[..n], Tokens(s[n..]));
  }

  lemma FirstToken(s: seq<byte>, n: nat)
    requires 0 < n <= |s| && DOT !in s[..n] && (n < |s| ==> s[n] == DOT)
    ensures Tokens(s) == [s[..n]] + Tokens(s[n..])
  {
    assert s[0] == s[..n][0];
    assert Span(s) <= n by {
      assert forall i :: 0 <= i < n ==> s[..n][i] == s[i];
    }
    assert Span(s) >= n by {
      assert forall i :: 0 <= i < Span(s) ==> s[..Span(s)][i] == s[i];
    }
  }

  lemma PackFirst(l: Label, rest: seq<Label>)
    requires l != [] && DOT !in l
    requires forall i :: 0 <= i < |rest| ==> rest[i] != [] && DOT !in rest[i]
    ensures LabelsOk(Clipped([l] + rest)) && LabelsOk(Clipped(rest))
    ensures Packed(Clipped([l] + rest)) == ([|Clip(l)|] + Clip(l)) + Packed(Clipped(rest))
  {
    ClippedOk([l] + rest);
    ClippedOk(rest);
    assert Clipped([l] + rest)[1..] == Clipped(rest);
  }

  datatype Query = Query(name: seq<byte>, qtype: int, qclass: int)

  function QueryHeader(id: int): Header {
    Header(id, 0, 0, 0, 0, 1, 0, 0, 1, 0, 0, 0)
  }

  /** A message with one question. */
  function QueryBytes(hostname: seq<byte>, qtype: int, id: int): seq<byte>
    requires Short(qtype) && Short(id)
  {
    HeaderBytes(QueryHeader(id)) + (NameBytes(hostname) + (Net(qtype) + Net(CLASS_IN)))
  }

  /** Byte by byte: recursion is desired and nothing else, one question, no records. */
  lemma QueryBytesAre(hostname: seq<byte>, qtype: int, id: int)
    requires Short(qtype) && Short(id)
    ensures var buf := QueryBytes(hostname, qtype, id);
      && |buf| >= 16 && buf[..12] == [id / 256, id % 256, 1, 0, 0, 1, 0, 0, 0, 0, 0, 0]
      && buf[12..|buf| - 4] == NameBytes(hostname) && buf[|buf| - 4..] == [qtype / 256, qtype % 256, 0, 1]
  {
    hide NameBytes;
    var h := HeaderBytes(QueryHeader(id));
    assert h == [id / 256, id % 256, 1, 0, 0, 1, 0, 0, 0, 0, 0, 0];
    assert Net(qtype) + Net(CLASS_IN) == [qtype / 256, qtype % 256, 0, 1];
  }

  /** The query kept for comparison: xstrncpy keeps 255 bytes of the name. */
  function Sent(hostname: seq<byte>, qtype: int): Query {
    Query(if |hostname| < MAXHOSTNAMESZ then hostname else hostname[..MAXHOSTNAMESZ - 1], qtype, CLASS_IN)
  }

  /** rfc1035BuildAQuery and rfc1035BuildPTRQuery, into a buffer of `sz` bytes. */
  method BuildQuery(hostname: seq<byte>, sz: nat, qtype: int, id: int) returns (buf: seq<byte>, query: Query)
    requires Short(qtype) && Short(id) && 12 + |NameBytes(hostname)| + 4 <= sz
    ensures |buf| <= sz && buf == QueryBytes(hostname, qtype, id) && query == Sent(hostname, qtype)
    ensures |buf| >= 16 && buf[..12] == [id / 256, id % 256, 1, 0, 0, 1, 0, 0, 0, 0, 0, 0]
    ensures buf[12..|buf| - 4] == NameBytes(hostname) && buf[|buf| - 4..] == [qtype / 256, qtype % 256, 0, 1]
  {
    QueryBytesAre(hostname, qtype, id);
    hide HeaderBytes, NameBytes;
    buf := HeaderBytes(QueryHeader(id));
    var name := NamePack(hostname);
    buf := buf + (name + (Net(qtype) + Net(CLASS_IN)));
    query := Sent(hostname, qtype);
  }

  // ----- Unpacking a question -----

  /** What unpacking the question at a place owes. */
  ghost predicate QueryCorrect(buf: seq<byte>, at: nat, cut: nat, q: Option<Query>, next: nat) {
    var ls, end, stop := Spelled(buf, at, 0), EndOf(buf, at), Stop(buf, at, MAXHOSTNAMESZ);
    && (q.Some? <==> Readable(buf, at, MAXHOSTNAMESZ, 0) && stop + 4 <= |buf|)
    && (q.Some? ==> next == stop + 4 && q.value.qtype == NetAt(buf, stop) && q.value.qclass == NetAt(buf, stop + 2))
    && (q.Some? ==> |q.value.name| < MAXHOSTNAMESZ && at < next <= |buf|)
    && (ls.Some? && |Dotted(ls.value)| < MAXHOSTNAMESZ ==>
          && (q.Some? <==> end + 4 <= |buf|)
          && (q.Some? ==>
                && next == end + 4 && q.value.qtype == NetAt(buf, end) && q.value.qclass == NetAt(buf, end + 2)
                && (q.value.name == HostName(ls.value) || (Compressed(buf, at) && q.value.name == Dotted(ls.value)))))
    && (ls.Some? && |Dotted(ls.value)| >= MAXHOSTNAMESZ && q.Some? && !Compressed(buf, at) ==>
          && cut <= |ls.value| && |Dotted(ls.value[..cut])| == MAXHOSTNAMESZ
          && at + MAXHOSTNAMESZ + 4 <= |buf| && q.value.qtype == NetAt(buf, at + MAXHOSTNAMESZ))
  }

  /** rfc1035QueryUnpack. */
  method QueryUnpack(buf: seq<byte>, off: nat) returns (q: Option<Query>, next: nat, ghost cut: nat)
    requires off <= |buf|
    ensures q.Some? <==> Readable(buf, off, MAXHOSTNAMESZ, 0) && Stop(buf, off, MAXHOSTNAMESZ) + 4 <= |buf|
    ensures QueryCorrect(buf, off, cut, q, next)
  {
    hide Spelled, EndOf, Compressed, Dotted, HostName, NetAt;
    var u: Unpacked;
    u, cut := NameUnpack(buf, off, MAXHOSTNAMESZ, 0);
    q, next := None, u.off;
    if u.ok && u.off + 4 <= |buf| {
      q, next := Some(Query(u.name, NetAt(buf, u.off), NetAt(buf, u.off + 2))), u.off + 4;
    }
  }

  // ----- Comparing queries -----

  /** strlen stops at the first null byte. */
  function CStr(s: seq<byte>): (r: seq<byte>)
    ensures 0 !in s ==> r == s
  {
    if s == [] || s[0] == 0 then [] else [s[0]] + CStr(s[1..])
  }

  function Trim(s: seq<byte>): (r: seq<byte>)
    ensures |r| <= |s| && r == s[..|r|] && (r != [] ==> r[|r| - 1] != DOT)
  {
    if s != [] && s[|s| - 1] == DOT then Trim(s[..|s| - 1]) else s
  }

  function LowerByte(c: byte): byte {
    if 65 <= c <= 90 then c + 32 else c
  }

  /** Two bytes agree up to case if they are equal or one is the capital of the other. */
  lemma SameLetter(a: byte, b: byte)
    ensures LowerByte(a) == LowerByte(b) <==>
      a == b || ('A' as int <= a <= 'Z' as int && b - a == 'a' as int - 'A' as int) || ('A' as int <= b <= 'Z' as int && a - b == 'a' as int - 'A' as int)
  {
  }

  function Lower(s: seq<byte>): (r: seq<byte>)
    ensures |r| == |s| && forall i :: 0 <= i < |s| ==> r[i] == LowerByte(s[i])
  {
    seq(|s|, i requires 0 <= i < |s| => LowerByte(s[i]))
  }

  /** The same question: the names agree up to case and root labels. */
  predicate SameQuery(a: Query, b: Query) {
    a.qtype == b.qtype && a.qclass == b.qclass && Lower(Trim(CStr(a.name))) == Lower(Trim(CStr(b.name)))
  }

  method StrLen(s: seq<byte>) returns (n: nat)
    ensures n <= |s| && s[..n] == CStr(s)
  {
    hide CStr;
    n := 0;
    while n < |s| && s[n] != 0
      invariant n <= |s| && 0 !in s[..n]
    {
      assert s[..n + 1] == s[..n] + [s[n]];
      n := n + 1;
    }
    CStrIs(s, n);
  }

  lemma {:induction false} CStrIs(s: seq<byte>, n: nat)
    requires n <= |s| && 0 !in s[..n] && (n < |s| ==> s[n] == 0)
    ensures s[..n] == CStr(s)
    decreases n
  {
    if n > 0 {
      assert s[0] == s[..n][0] && s[1..][..n - 1] == s[..n][1..];
      CStrIs(s[1..], n - 1);
      assert s[..n] == [s[0]] + s[1..][..n - 1];
    }
  }

  method TrimLen(s: seq<byte>, len: nat) returns (n: nat)
    requires len <= |s|
    ensures n <= len && s[..n] == Trim(s[..len])
  {
    n := len;
    while n > 0 && s[n - 1] == DOT
      invariant n <= len && Trim(s[..n]) == Trim(s[..len])
    {
      assert s[..n][..n - 1] == s[..n - 1];
      n := n - 1;
    }
  }

  /** Names of one length agree, once trimmed, just when they agree. */
  lemma {:induction false} TrimEqual(a: seq<byte>, b: seq<byte>)
    requires |a| == |b|
    ensures Lower(a) == Lower(b) <==> Lower(Trim(a)) == Lower(Trim(b))
  {
    if a != [] {
      var n := |a| - 1;
      assert Lower(a) == Lower(a[..n]) + [LowerByte(a[n])] && Lower(b) == Lower(b[..n]) + [LowerByte(b[n])];
      if a[n] == DOT && b[n] == DOT {
        TrimEqual(a[..n], b[..n]);
      } else if a[n] == DOT {
        assert |Trim(a)| <= n && Trim(b) == b;
      } else if b[n] == DOT {
        assert |Trim(b)| <= n && Trim(a) == a;
      }
    }
  }

  /** rfc1035QueryCompare; the trimming loops run only for names of different lengths. */
  method QueryCompare(a: Query, b: Query) returns (same: bool)
    ensures same <==> SameQuery(a, b)
  {
    hide Trim, CStr;
    if a.qtype != b.qtype {
      return false;
    }
    if a.qclass != b.qclass {
      return false;
    }
    var la := StrLen(a.name);
    var lb := StrLen(b.name);
    ghost var x, y := a.name[..la], b.name[..lb];
    if la != lb {
      la := TrimLen(a.name, la);
      lb := TrimLen(b.name, lb);
    } else {
      TrimEqual(x, y);
    }
    if la != lb {
      return false;
    }
    same := CaseCompare(a.name[..la], b.name[..la]);
  }

  /** strncasecmp. */
  method CaseCompare(a: seq<byte>, b: seq<byte>) returns (same: bool)
    requires |a| == |b|
    ensures same <==> Lower(a) == Lower(b)
  {
    var i := 0;
    while i < |a|
      invariant 0 <= i <= |a| && forall j :: 0 <= j < i ==> LowerByte(a[j]) == LowerByte(b[j])
    {
      if LowerByte(a[i]) != LowerByte(b[i]) {
        assert Lower(a)[i] != Lower(b)[i];
        return false;
      }
      i := i + 1;
    }
    return true;
  }

  // ----- Which names come back -----

  lemma PackedFirst(ls: seq<Label>)
    requires LabelsOk(ls) && ls != []
    ensures LabelOk(ls[0]) && LabelsOk(ls[1..]) && Packed(ls) == [|ls[0]|] + ls[0] + Packed(ls[1..])
  {
  }

  lemma LabelHeld(buf: seq<byte>, at: int, l: Label, rest: seq<byte>)
    requires Holds(buf, at, l) && Holds(buf, at + |l|, rest) && rest != []
    ensures 0 <= at && at + |l| < |buf| && buf[at..at + |l|] == l
  {
  }

  lemma NothingPacked()
    ensures Packed([]) == [0]
  {
  }

  lemma NullSpells(buf: seq<byte>, at: nat, depth: nat)
    requires depth <= 65 && Holds(buf, at, [0])
    ensures Spelled(buf, at, depth) == Some([]) && EndOf(buf, at) == at + 1 && !Compressed(buf, at)
  {
    HoldsAt(buf, at, [0], 0);
  }

  lemma {:induction false} PackedSpellsAt(buf: seq<byte>, at: nat, ls: seq<Label>, depth: nat)
    requires depth <= 65 && LabelsOk(ls) && Holds(buf, at, Packed(ls))
    ensures Spelled(buf, at, depth) == Some(ls) && EndOf(buf, at) == at + |Packed(ls)| && !Compressed(buf, at)
    decreases |ls|
  {
    hide Spelled, EndOf, Compressed, Dotted, Packed, Holds;
    if ls == [] {
      NothingPacked();
      NullSpells(buf, at, depth);
    } else {
      var l, rest := ls[0], ls[1..];
      PackedFirst(ls);
      HoldsSplit(buf, at, [|l|] + l, Packed(rest));
      HoldsSplit(buf, at, [|l|], l);
      HoldsAt(buf, at, [|l|], 0);
      PackedSpellsAt(buf, at + 1 + |l|, rest, depth);
      PackedSize(rest);
      LabelHeld(buf, at + 1, l, Packed(rest));
      SpelledStep(buf, at, depth);
      assert [l] + rest == ls;
    }
  }

  /** A packed name spells its labels. */
  lemma PackedSpells(buf: seq<byte>, at: nat, ls: seq<Label>)
    requires LabelsOk(ls) && Holds(buf, at, Packed(ls))
    ensures Spelled(buf, at, 0) == Some(ls) && EndOf(buf, at) == at + |Packed(ls)| && !Compressed(buf, at)
  {
    PackedSpellsAt(buf, at, ls, 0);
  }

  /** The labels with their lengths, without the null label. */
  function Packing(ls: seq<Label>): seq<byte>
    requires LabelsOk(ls)
  {
    if ls == [] then [] else [|ls[0]|] + ls[0] + Packing(ls[1..])
  }

  /** Section 4.1.4 of RFC 1035: labels followed by two bytes that point at a name spell the
      labels and that name, and the name ends after the two bytes. */
  lemma {:induction false} CompressedSpells(buf: seq<byte>, at: nat, front: seq<Label>, target: nat, ls: seq<Label>)
    requires LabelsOk(front) && LabelsOk(ls) && target < 0x4000
    requires Holds(buf, at, Packing(front) + [0xC0 + target / 256, target % 256]) && Holds(buf, target, Packed(ls))
    ensures Spelled(buf, at, 0) == Some(front + ls) && EndOf(buf, at) == at + |Packing(front)| + 2 && Compressed(buf, at)
    decreases |front|
  {
    hide Spelled, EndOf, Compressed, Packing, Packed, Holds;
    var two := [0xC0 + target / 256, target % 256];
    if front == [] {
      NoPacking();
      assert [] + two == two;
      PointerSpells(buf, at, target, ls);
      assert front + ls == ls;
    } else {
      var l, rest := front[0], front[1..];
      PackingFirst(front);
      assert Packing(front) + two == [|l|] + l + (Packing(rest) + two);
      HoldsSplit(buf, at, [|l|] + l, Packing(rest) + two);
      HoldsSplit(buf, at, [|l|], l);
      HoldsAt(buf, at, [|l|], 0);
      CompressedSpells(buf, at + 1 + |l|, rest, target, ls);
      LabelHeld(buf, at + 1, l, Packing(rest) + two);
      SpelledStep(buf, at, 0);
      assert [l] + (rest + ls) == front + ls;
    }
  }

  lemma NoPacking()
    ensures Packing([]) == []
  {
  }

  lemma PackingFirst(ls: seq<Label>)
    requires LabelsOk(ls) && ls != []
    ensures LabelOk(ls[0]) && LabelsOk(ls[1..]) && Packing(ls) == [|ls[0]|] + ls[0] + Packing(ls[1..])
  {
  }

  lemma PointerSpells(buf: seq<byte>, at: nat, target: nat, ls: seq<Label>)
    requires LabelsOk(ls) && target < 0x4000 && Holds(buf, at, [0xC0 + target / 256, target % 256]) && Holds(buf, target, Packed(ls))
    ensures Spelled(buf, at, 0) == Some(ls) && EndOf(buf, at) == at + 2 && Compressed(buf, at)
  {
    var two := [0xC0 + target / 256, target % 256];
    HoldsAt(buf, at, two, 0);
    HoldsAt(buf, at, two, 1);
    PackedSpellsAt(buf, target, ls, 1);
    PackedSome(ls);
    assert NetAt(buf, at) % 0x4000 == target;
    PointerStep(buf, at, 0);
  }

  lemma PackedSome(ls: seq<Label>)
    requires LabelsOk(ls)
    ensures Packed(ls) != []
  {
  }

  lemma {:induction false} PackedDrop(buf: seq<byte>, at: nat, ls: seq<Label>, k: nat)
    requires LabelsOk(ls) && k <= |ls| && Holds(buf, at, Packed(ls))
    ensures Holds(buf, at + |Dotted(ls[..k])|, Packed(ls[k..]))
    decreases |ls|
  {
    if k == 0 {
      assert ls[0..] == ls;
    } else {
      var l := ls[0];
      HoldsSplit(buf, at, [|l|] + l, Packed(ls[1..]));
      PackedDrop(buf, at + 1 + |l|, ls[1..], k - 1);
      assert ls[1..][k - 1..] == ls[k..] && ls[..k][1..] == ls[1..][..k - 1];
    }
  }

  /** Read where a name was cut, the type is no type of a query. */
  lemma CutType(buf: seq<byte>, at: nat, ls: seq<Label>, k: nat, qtype: int)
    requires 0 < qtype < 256 && LabelsOk(ls) && k <= |ls| && Holds(buf, at, Packed(ls) + (Net(qtype) + Net(CLASS_IN)))
    requires at + |Dotted(ls[..k])| + 2 <= |buf|
    ensures NetAt(buf, at + |Dotted(ls[..k])|) != qtype
  {
    hide Dotted;
    var p := at + |Dotted(ls[..k])|;
    HoldsSplit(buf, at, Packed(ls), Net(qtype) + Net(CLASS_IN));
    PackedDrop(buf, at, ls, k);
    HoldsAt(buf, p, Packed(ls[k..]), 0);
    if k == |ls| {
      PackedSize(ls);
      assert ls[..k] == ls;
      HoldsAt(buf, p + 1, Net(qtype) + Net(CLASS_IN), 0);
    } else {
      assert LabelOk(ls[k]);
    }
  }

  lemma {:induction false} TokensAppend(s: seq<byte>, r: seq<byte>)
    requires r == [] || r[0] == DOT
    ensures Tokens(s + r) == Tokens(s) + Tokens(r)
    decreases |s|
  {
    if s == [] {
      assert s + r == r;
    } else if s[0] == DOT {
      assert (s + r)[1..] == s[1..] + r;
      TokensAppend(s[1..], r);
    } else {
      var n := Span(s);
      assert (s + r)[..n] == s[..n] && (s + r)[n..] == s[n..] + r;
      FirstToken(s + r, n);
      TokensAppend(s[n..], r);
    }
  }

  lemma HostNameOne(l: Label)
    ensures HostName([l]) == l
  {
    DottedOne(l);
  }

  lemma HostNameCons(l: Label, ls: seq<Label>)
    requires ls != []
    ensures HostName([l] + ls) == l + [DOT] + HostName(ls)
  {
    HostNameAppend([l], ls);
    DottedOne(l);
  }

  lemma OneToken(l: Label)
    requires LabelOk(l)
    ensures Tokens(l) == [l]
  {
    assert l[..|l|] == l && l[|l|..] == [];
    FirstToken(l, |l|);
  }

  lemma {:induction false} TokensHost(ls: seq<Label>)
    requires LabelsOk(ls)
    ensures Tokens(HostName(ls)) == ls
    decreases |ls|
  {
    hide Dotted, LabelOk;
    if ls != [] {
      var l, rest := ls[0], ls[1..];
      assert ls == [l] + rest;
      OneToken(l);
      if rest == [] {
        HostNameOne(l);
      } else {
        HostNameCons(l, rest);
        var r := [DOT] + HostName(rest);
        assert HostName(ls) == l + r && r[1..] == HostName(rest);
        TokensAppend(l, r);
        TokensHost(rest);
      }
    }
  }

  lemma {:induction false} NoTokens(r: seq<byte>)
    requires Tokens(r) == []
    ensures Trim(r) == []
    decreases |r|
  {
    if r != [] {
      NoTokens(r[1..]);
      TrimDots(r[1..]);
      assert r == [r[0]] + r[1..];
      TrimAll(r);
    }
  }

  lemma {:induction false} TrimDots(r: seq<byte>)
    requires Trim(r) == []
    ensures forall i :: 0 <= i < |r| ==> r[i] == DOT
  {
    if r != [] {
      TrimDots(r[..|r| - 1]);
    }
  }

  lemma {:induction false} TrimAll(r: seq<byte>)
    requires forall i :: 0 <= i < |r| ==> r[i] == DOT
    ensures Trim(r) == []
  {
    if r != [] {
      TrimAll(r[..|r| - 1]);
    }
  }

  /** Dots after a name are trimmed away. */
  lemma {:induction false} TrimAppend(s: seq<byte>, r: seq<byte>)
    requires Trim(r) == []
    ensures Trim(s + r) == Trim(s)
    decreases |r|
  {
    if r == [] {
      assert s + r == s;
    } else {
      assert (s + r)[..|s + r| - 1] == s + r[..|r| - 1];
      TrimAppend(s, r[..|r| - 1]);
    }
  }

  lemma {:induction false} TrimRest(s: seq<byte>)
    ensures s == Trim(s) + s[|Trim(s)|..] && Trim(s[|Trim(s)|..]) == []
  {
    if s != [] && s[|s| - 1] == DOT {
      var t := s[..|s| - 1];
      TrimRest(t);
      var r := s[|Trim(s)|..];
      assert r[..|r| - 1] == t[|Trim(t)|..];
    } else {
      assert s[|s|..] == [];
    }
  }

  lemma HostNameTrim(ls: seq<Label>)
    requires LabelsOk(ls)
    ensures Trim(HostName(ls)) == HostName(ls)
  {
    if ls != [] {
      var l := ls[|ls| - 1];
      assert LabelOk(l);
      HostNameAppend(ls[..|ls| - 1], [l]);
      DottedOne(l);
      assert ls == ls[..|ls| - 1] + [l];
      assert HostName(ls)[|HostName(ls)| - 1] == l[|l| - 1];
    }
  }

  /** A name that differs from a canonical one by case only is canonical itself. */
  lemma {:induction false} SameShape(s: seq<byte>, ls: seq<Label>) returns (ms: seq<Label>)
    requires LabelsOk(ls) && Lower(s) == Lower(HostName(ls))
    ensures LabelsOk(ms) && |ms| == |ls| && s == HostName(ms)
    decreases |ls|
  {
    hide Dotted, LabelOk, HostName, Lower;
    if ls == [] {
      NoName(s);
      return [];
    }
    var l, tail := ls[0], ls[1..];
    assert ls == [l] + tail && LabelOk(l);
    if tail == [] {
      assert ls == [l];
      HostNameOne(l);
      LowerLabel(s, l);
      HostNameOne(s);
      return [s];
    }
    HostNameCons(l, tail);
    LowerParts(s, l, HostName(tail));
    var t := s[..|l|];
    LowerLabel(t, l);
    var rest := SameShape(s[|l| + 1..], tail);
    ms := [t] + rest;
    HostNameCons(t, rest);
    assert s == t + [DOT] + s[|l| + 1..];
  }

  lemma NoName(s: seq<byte>)
    requires Lower(s) == Lower(HostName([]))
    ensures s == HostName([])
  {
    assert |Lower(s)| == 0;
  }

  lemma LowerLabel(s: seq<byte>, l: Label)
    requires LabelOk(l) && Lower(s) == Lower(l)
    ensures LabelOk(s)
  {
    assert |Lower(s)| == |Lower(l)|;
    forall i | 0 <= i < |s| ensures s[i] != DOT {
      assert Lower(s)[i] == Lower(l)[i];
      assert l[i] in l;
    }
  }

  lemma LowerParts(s: seq<byte>, l: seq<byte>, t: seq<byte>)
    requires Lower(s) == Lower(l + [DOT] + t)
    ensures |s| == |l| + 1 + |t| && s[|l|] == DOT
    ensures Lower(s[..|l|]) == Lower(l) && Lower(s[|l| + 1..]) == Lower(t)
  {
    var n, w := |l|, l + [DOT] + t;
    assert |Lower(s)| == |Lower(w)|;
    assert Lower(s)[n] == Lower(w)[n];
    forall i | 0 <= i < n ensures Lower(s[..n])[i] == Lower(l)[i] {
      assert Lower(s)[i] == Lower(w)[i];
    }
    forall i | 0 <= i < |t| ensures Lower(s[n + 1..])[i] == Lower(t)[i] {
      assert Lower(s)[n + 1 + i] == Lower(w)[n + 1 + i];
    }
  }

  /** Labels of at most 63 bytes between single dots, and at most 254 bytes before the last dots. */
  predicate Canonical(hostname: seq<byte>) {
    var ls := Tokens(hostname);
    LabelsOk(ls) && Trim(hostname) == HostName(ls) && |HostName(ls)| < MAXHOSTNAMESZ - 1
  }

  lemma ClippedSame(ls: seq<Label>)
    requires LabelsOk(ls)
    ensures Clipped(ls) == ls
  {
    forall i | 0 <= i < |ls| ensures Clip(ls[i]) == ls[i] {
      assert LabelOk(ls[i]);
    }
  }

  /** What is kept of a host name begins with its trimmed part. */
  lemma SentName(hostname: seq<byte>) returns (s: seq<byte>, r: seq<byte>)
    ensures s == Trim(Sent(hostname, TYPE_A).name) && hostname == s + r
    ensures |s| < MAXHOSTNAMESZ - 1 ==> r == [] || r[0] == DOT
    ensures |hostname| < MAXHOSTNAMESZ ==> Trim(r) == []
    ensures |Trim(hostname)| < MAXHOSTNAMESZ - 1 ==> s == Trim(hostname)
  {
    hide Trim;
    var n := if |hostname| < MAXHOSTNAMESZ then |hostname| else MAXHOSTNAMESZ - 1;
    var kept := hostname[..n];
    assert kept == Sent(hostname, TYPE_A).name;
    s := Trim(kept);
    r := hostname[|s|..];
    TrimRest(kept);
    if |s| < n {
      TrimDots(kept[|s|..]);
      assert r[0] == kept[|s|..][0];
    }
    if n == |hostname| {
      assert kept == hostname;
    } else if |Trim(hostname)| < n {
      TrimRest(hostname);
      TrimTake(hostname, n);
    }
  }

  lemma TrimTake(s: seq<byte>, n: nat)
    requires |Trim(s)| <= n <= |s|
    ensures Trim(s[..n]) == Trim(s)
  {
    TrimRest(s);
    var t, d := Trim(s), s[|Trim(s)|..n];
    TrimDots(s[|t|..]);
    forall i | 0 <= i < |d| ensures d[i] == DOT {
      assert d[i] == s[|t|..][i];
    }
    TrimAll(d);
    assert s[..n] == t + d;
    TrimAppend(t, d);
    TrimTwice(s);
  }

  lemma {:induction false} TrimTwice(s: seq<byte>)
    ensures Trim(Trim(s)) == Trim(s)
  {
  }

  /** The labels packed for a host name give back what was kept of it just when the name is canonical. */
  lemma NameReturns(hostname: seq<byte>)
    requires |Dotted(HostLabels(hostname))| < MAXHOSTNAMESZ
    ensures Lower(HostName(HostLabels(hostname))) == Lower(Trim(Sent(hostname, TYPE_A).name)) <==> Canonical(hostname)
  {
    hide Dotted, HostName, Lower, Tokens, Clipped, Trim, Sent;
    var ls := HostLabels(hostname);
    HostNameDot(ls);
    assert |HostName(ls)| < MAXHOSTNAMESZ - 1 by { HostNameShort(ls); }
    var s, r := SentName(hostname);
    if Canonical(hostname) {
      ClippedSame(Tokens(hostname));
    }
    if Lower(HostName(ls)) == Lower(s) {
      LowerSize(HostName(ls), s);
      var ms := SameShape(s, ls);
      TokensHost(ms);
      TokensAppend(s, r);
      assert |Tokens(hostname)| == |ls|;
      assert Tokens(r) == [];
      NoTokens(r);
      TrimAppend(s, r);
      HostNameTrim(ms);
      assert Tokens(hostname) == ms + [] == ms;
    }
  }

  lemma HostNameShort(ls: seq<Label>)
    requires |Dotted(ls)| < MAXHOSTNAMESZ
    ensures |HostName(ls)| < MAXHOSTNAMESZ - 1
  {
    HostNameDot(ls);
  }

  lemma LowerSize(a: seq<byte>, b: seq<byte>)
    requires Lower(a) == Lower(b)
    ensures |a| == |b|
  {
    assert |Lower(a)| == |Lower(b)|;
  }

  lemma {:induction false} DottedNoNul(ls: seq<Label>)
    requires forall i :: 0 <= i < |ls| ==> 0 !in ls[i]
    ensures 0 !in Dotted(ls)
  {
    if ls != [] {
      DottedNoNul(ls[1..]);
    }
  }

  lemma {:induction false} TokensNoNul(s: seq<byte>)
    requires 0 !in s
    ensures forall i :: 0 <= i < |Tokens(s)| ==> 0 !in Tokens(s)[i]
    decreases |s|
  {
    if s != [] {
      TokensNoNul(if s[0] == DOT then s[1..] else s[Span(s)..]);
    }
  }

  lemma NamesNoNul(hostname: seq<byte>, qtype: int)
    requires 0 !in hostname
    ensures 0 !in HostName(HostLabels(hostname)) && 0 !in Sent(hostname, qtype).name
  {
    var ts, ls := Tokens(hostname), HostLabels(hostname);
    TokensNoNul(hostname);
    forall i | 0 <= i < |ls| ensures 0 !in ls[i] {
      assert 0 !in ts[i] && ls[i] == Clip(ts[i]);
    }
    DottedNoNul(ls);
  }

  lemma QueryPlaces(hostname: seq<byte>, qtype: int, id: int)
    requires Short(qtype) && Short(id)
    ensures var buf, ls := QueryBytes(hostname, qtype, id), HostLabels(hostname); var end := 12 + |Packed(ls)|;
      && HeaderUnpack(buf) == Some(QueryHeader(id))
      && Holds(buf, 12, Packed(ls) + (Net(qtype) + Net(CLASS_IN)))
      && Spelled(buf, 12, 0) == Some(ls) && EndOf(buf, 12) == end && !Compressed(buf, 12)
      && |buf| == end + 4 && NetAt(buf, end) == qtype && NetAt(buf, end + 2) == CLASS_IN
  {
    hide Net, NetAt, HeaderBytes, HeaderUnpack, Packed, Spelled, EndOf, Compressed, HostLabels;
    var buf, ls, h := QueryBytes(hostname, qtype, id), HostLabels(hostname), HeaderBytes(QueryHeader(id));
    var rest := Packed(ls) + (Net(qtype) + Net(CLASS_IN));
    assert buf == h + rest;
    assert Holds(buf, 0, h + rest);
    HoldsSplit(buf, 0, h, rest);
    HeaderRoundTrip(buf, QueryHeader(id));
    HoldsSplit(buf, 12, Packed(ls), Net(qtype) + Net(CLASS_IN));
    PackedSpells(buf, 12, ls);
    HoldsSplit(buf, 12 + |Packed(ls)|, Net(qtype), Net(CLASS_IN));
    NetRoundTrip(buf, 12 + |Packed(ls)|, qtype);
    NetRoundTrip(buf, 12 + |Packed(ls)| + 2, CLASS_IN);
  }

  /** A question read back from a short name. */
  lemma ShortReturns(hostname: seq<byte>, qtype: int, q: Query)
    requires 0 !in hostname && |Dotted(HostLabels(hostname))| < MAXHOSTNAMESZ
    requires q == Query(HostName(HostLabels(hostname)), qtype, CLASS_IN)
    ensures SameQuery(q, Sent(hostname, qtype)) <==> Canonical(hostname)
  {
    hide Dotted, HostName, Trim, Lower, CStr, Canonical, HostLabels;
    NamesNoNul(hostname, qtype);
    NameReturns(hostname);
    HostNameTrim(HostLabels(hostname));
    assert Sent(hostname, qtype).name == Sent(hostname, TYPE_A).name;
  }

  lemma LongLost(hostname: seq<byte>)
    requires |Dotted(HostLabels(hostname))| >= MAXHOSTNAMESZ
    ensures !Canonical(hostname)
  {
    hide Dotted, HostName, Trim, Tokens;
    if Canonical(hostname) {
      ClippedSame(Tokens(hostname));
      HostNameDot(Tokens(hostname));
      DottedNonempty(Tokens(hostname));
    }
  }

  /** The question of a message built for a host name comes back just when the name is canonical. */
  lemma QueryReturns(hostname: seq<byte>, qtype: int, id: int, cut: nat, q: Option<Query>, next: nat)
    requires 0 !in hostname && 0 < qtype < 256 && Short(id)
    requires QueryCorrect(QueryBytes(hostname, qtype, id), 12, cut, q, next)
    ensures q.Some? && SameQuery(q.value, Sent(hostname, qtype)) <==> Canonical(hostname)
  {
    hide Net, NetAt, HeaderBytes, HeaderUnpack, Packed, Spelled, EndOf, Compressed, HostLabels, Dotted, HostName;
    hide Trim, Lower, CStr, Tokens, Holds, Canonical, QueryBytes, Readable, Stop;
    var buf, ls := QueryBytes(hostname, qtype, id), HostLabels(hostname);
    QueryPlaces(hostname, qtype, id);
    if |Dotted(ls)| < MAXHOSTNAMESZ {
      ShortReturns(hostname, qtype, q.value);
    } else {
      LongLost(hostname);
      if q.Some? {
        CutType(buf, 12, ls, cut, qtype);
      }
    }
  }

  // ----- Messages -----

  datatype Record = Record(name: seq<byte>, rtype: int, rclass: int, ttl: int, rdlength: int, rdata: seq<byte>)

  datatype Message = Message(header: Header, query: Query, answer: seq<Record>)

  /** The return value and the message handed out. */
  datatype Reply = Reply(code: int, msg: Option<Message>)

  const UNPACK_ERROR := 15

  /** The string a name fits into, if it does. */
  predicate NameAt(buf: seq<byte>, at: nat, name: seq<byte>) {
    var ls := Spelled(buf, at, 0);
    && |name| < MAXHOSTNAMESZ
    && (ls.Some? && |Dotted(ls.value)| < MAXHOSTNAMESZ ==>
          name == HostName(ls.value) || (Compressed(buf, at) && name == Dotted(ls.value)))
  }

  /** The length counted for a name that fits. */
  predicate LengthAt(buf: seq<byte>, at: nat, n: int) {
    var ls := Spelled(buf, at, 0);
    ls.Some? && |Dotted(ls.value)| < MAXHOSTNAMESZ ==> n == |Dotted(ls.value)|
  }

  /** A record can be unpacked at a place: its name can be read, its fields and its data are
      there, and the name in the data of a PTR record does not run past them. */
  predicate RecordFits(buf: seq<byte>, at: nat) {
    && Readable(buf, at, MAXHOSTNAMESZ, 0)
    && var p := Stop(buf, at, MAXHOSTNAMESZ);
    && p + 10 <= |buf| && p + 10 + NetAt(buf, p + 8) <= |buf|
    && (NetAt(buf, p) == TYPE_PTR ==>
          Readable(buf, p + 10, MAXHOSTNAMESZ, 0) && Stop(buf, p + 10, MAXHOSTNAMESZ) <= p + 10 + NetAt(buf, p + 8))
  }

  /** What unpacking a record at a place owes. */
  predicate RecordAt(buf: seq<byte>, at: nat, r: Record, next: nat) {
    && RecordFits(buf, at)
    && var p := Stop(buf, at, MAXHOSTNAMESZ);
    && at < next <= |buf| && NameAt(buf, at, r.name)
    && r.rtype == NetAt(buf, p) && r.rclass == NetAt(buf, p + 2)
    && r.ttl == 0x1_0000 * NetAt(buf, p + 4) + NetAt(buf, p + 6)
    && next == p + 10 + NetAt(buf, p + 8)
    && if r.rtype == TYPE_PTR then NameAt(buf, p + 10, r.rdata) && LengthAt(buf, p + 10, r.rdlength)
       else r.rdlength == NetAt(buf, p + 8) && r.rdata == buf[p + 10..next]
  }

  /** rfc1035RRUnpack. */
  method RRUnpack(buf: seq<byte>, off: nat) returns (rr: Option<Record>, next: nat)
    requires off <= |buf|
    ensures rr.Some? <==> RecordFits(buf, off)
    ensures rr.Some? ==> RecordAt(buf, off, rr.value, next)
  {
    hide Spelled, EndOf, Compressed, Dotted, HostName, NetAt, Readable, Stop;
    rr, next := None, off;
    var u, _ := NameUnpack(buf, off, MAXHOSTNAMESZ, 0);
    if !u.ok || u.off + 10 > |buf| {
      return;
    }
    var p := u.off;
    var rtype, rclass, rdlength := NetAt(buf, p), NetAt(buf, p + 2), NetAt(buf, p + 8);
    var ttl := 0x1_0000 * NetAt(buf, p + 4) + NetAt(buf, p + 6);
    p := p + 10;
    if p + rdlength > |buf| {
      return;
    }
    if rtype == TYPE_PTR {
      var d, _ := NameUnpack(buf, p, MAXHOSTNAMESZ, 0);
      if !d.ok || d.off > p + rdlength {
        return;
      }
      rr := Some(Record(u.name, rtype, rclass, ttl, d.length, d.name));
    } else {
      rr := Some(Record(u.name, rtype, rclass, ttl, rdlength, buf[p..p + rdlength]));
    }
    next := p + rdlength;
  }

  /** Records one after another, the first at a place. */
  ghost predicate RecordsAt(buf: seq<byte>, at: nat, rs: seq<Record>, ends: seq<nat>) {
    && |ends| == |rs| + 1 && ends[0] == at
    && forall i :: 0 <= i < |rs| ==> RecordAt(buf, ends[i], rs[i], ends[i + 1])
  }

  /** The records in order, as many as announced unless the message ends or one is refused. */
  ghost predicate AnswersAt(buf: seq<byte>, at: nat, count: nat, rs: seq<Record>, ends: seq<nat>) {
    && RecordsAt(buf, at, rs, ends) && |rs| <= count
    && (|rs| == count || ends[|rs|] >= |buf| || !RecordFits(buf, ends[|rs|]))
  }

  /** The answers of a message, as many as can be unpacked. */
  method AnswersUnpack(buf: seq<byte>, off: nat, count: nat) returns (rs: seq<Record>, ghost ends: seq<nat>)
    requires off <= |buf|
    ensures |rs| <= count
    ensures AnswersAt(buf, off, count, rs, ends)
  {
    hide RecordAt, RecordFits;
    rs, ends := [], [off];
    var p: nat := off;
    while |rs| < count
      invariant p <= |buf| && |rs| <= count && RecordsAt(buf, off, rs, ends) && ends[|rs|] == p
    {
      if p >= |buf| {
        break;
      }
      var rr, q := RRUnpack(buf, p);
      if rr.None? {
        break;
      }
      AfterRecord(buf, p, rr.value, q);
      rs, ends, p := rs + [rr.value], ends + [q], q;
    }
  }

  lemma AfterRecord(buf: seq<byte>, at: nat, r: Record, next: nat)
    requires RecordAt(buf, at, r, next)
    ensures next <= |buf|
  {
  }

  /** What unpacking a message owes, given the question in it. */
  ghost predicate MessageCorrect(buf: seq<byte>, q: Option<Query>, next: nat, reply: Reply) {
    var h := HeaderUnpack(buf);
    if h.None? || h.value.qdcount != 1 || q.None? then reply == Reply(-UNPACK_ERROR, None)
    else if h.value.rcode != 0 then reply == Reply(-h.value.rcode, Some(Message(h.value, q.value, [])))
    else if h.value.ancount == 0 then reply == Reply(0, Some(Message(h.value, q.value, [])))
    else
      exists rs, ends ::
        AnswersAt(buf, next, h.value.ancount, rs, ends) &&
        reply == if rs == [] then Reply(-UNPACK_ERROR, None) else Reply(|rs|, Some(Message(h.value, q.value, rs)))
  }

  /** rfc1035MessageUnpack. */
  method MessageUnpack(buf: seq<byte>) returns (reply: Reply, ghost q: Option<Query>, ghost next: nat, ghost cut: nat)
    ensures HeaderUnpack(buf).None? || HeaderUnpack(buf).value.qdcount != 1 ==> reply == Reply(-UNPACK_ERROR, None)
    ensures reply.msg.Some? ==> HeaderUnpack(buf) == Some(reply.msg.value.header)
    ensures HeaderUnpack(buf).Some? && HeaderUnpack(buf).value.qdcount == 1 ==> QueryCorrect(buf, 12, cut, q, next)
    ensures MessageCorrect(buf, q, next, reply)
  {
    hide AnswersAt, HeaderUnpack, Spelled, EndOf, Compressed, Dotted, HostName, NetAt, Readable, Stop;
    q, next, cut := None, 0, 0;
    reply := Reply(-UNPACK_ERROR, None);
    var h := HeaderUnpack(buf);
    if h.None? || h.value.qdcount != 1 {
      return;
    }
    var query, off, at := QueryUnpack(buf, 12);
    q, next, cut := query, off, at;
    if query.None? {
      return;
    }
    if h.value.rcode != 0 {
      reply := Reply(-h.value.rcode, Some(Message(h.value, query.value, [])));
    } else if h.value.ancount == 0 {
      reply := Reply(0, Some(Message(h.value, query.value, [])));
    } else {
      var rs, ends := AnswersUnpack(buf, off, h.value.ancount);
      assert AnswersAt(buf, next, h.value.ancount, rs, ends);
      if rs != [] {
        reply := Reply(|rs|, Some(Message(h.value, query.value, rs)));
      }
    }
  }

  /** A message that announces answers is refused exactly if there is no question in it or the
      first answer cannot be unpacked. */
  lemma RefusedReply(buf: seq<byte>, q: Option<Query>, next: nat, reply: Reply)
    requires MessageCorrect(buf, q, next, reply)
    requires var h := HeaderUnpack(buf); h.Some? && h.value.qdcount == 1 && h.value.rcode == 0 && h.value.ancount > 0
    ensures reply.code == -UNPACK_ERROR <==> q.None? || next >= |buf| || !RecordFits(buf, next)
    ensures reply.code != -UNPACK_ERROR ==> reply.msg.Some? && 1 <= reply.code == |reply.msg.value.answer|
  {
    hide HeaderUnpack, RecordFits;
    if q.Some? {
      var rs, ends :| AnswersAt(buf, next, HeaderUnpack(buf).value.ancount, rs, ends) &&
        reply == if rs == [] then Reply(-UNPACK_ERROR, None) else Reply(|rs|, Some(Message(HeaderUnpack(buf).value, q.value, rs)));
      assert rs != [] ==> RecordAt(buf, ends[0], rs[0], ends[0 + 1]);
    }
  }

  /** A reply that repeats the question of a message built for a host name. */
  predicate Echoes(reply: Reply, hostname: seq<byte>, qtype: int, id: int) {
    && reply.code == 0 && reply.msg.Some? && reply.msg.value.header == QueryHeader(id)
    && SameQuery(reply.msg.value.query, Sent(hostname, qtype))
  }

  /** The message built for a host name unpacks to its id, flags and question just when the name is canonical. */
  lemma MessageReturns(hostname: seq<byte>, qtype: int, id: int, reply: Reply, q: Option<Query>, next: nat, cut: nat)
    requires 0 !in hostname && 0 < qtype < 256 && Short(id)
    requires var buf := QueryBytes(hostname, qtype, id);
      && MessageCorrect(buf, q, next, reply)
      && (HeaderUnpack(buf).Some? && HeaderUnpack(buf).value.qdcount == 1 ==> QueryCorrect(buf, 12, cut, q, next))
    ensures Echoes(reply, hostname, qtype, id) <==> Canonical(hostname)
  {
    hide HeaderUnpack, QueryCorrect, SameQuery, Sent, Canonical, QueryBytes, Spelled, EndOf, Compressed, NetAt;
    QueryPlaces(hostname, qtype, id);
    QueryReturns(hostname, qtype, id, cut, q, next);
  }

  /** Four labels of 63 bytes. */
  function FullName(): seq<Label> {
    seq(4, _ => FullLabel())
  }

  function FullLabel(): (l: Label)
    ensures |l| == MAXLABELSZ && LabelOk(l) && 0 !in l
  {
    seq(MAXLABELSZ, _ => 97)
  }

  lemma FullNameSize()
    ensures LabelsOk(FullName()) && |HostName(FullName())| == 255 && 0 !in HostName(FullName())
  {
    hide HostName, FullLabel;
    var l := FullLabel();
    assert FullName() == [l] + ([l] + ([l] + [l]));
    DottedOne(l);
    DottedAppend([l], [l]);
    DottedAppend([l], [l] + [l]);
    DottedAppend([l], [l] + ([l] + [l]));
    hide Dotted;
    HostNameDot(FullName());
    DottedNoNul(FullName());
    assert forall i :: 0 <= i < |HostName(FullName())| ==> HostName(FullName())[i] == Dotted(FullName())[i];
  }

  /** 255 bytes of labels unpack, but to a question of another type. */
  lemma FullNameLost(id: int, cut: nat, q: Option<Query>, next: nat)
    requires Short(id)
    requires QueryCorrect(QueryBytes(HostName(FullName()), TYPE_A, id), 12, cut, q, next)
    ensures LabelsOk(FullName()) && |HostName(FullName())| == 255
    ensures !(q.Some? && SameQuery(q.value, Sent(HostName(FullName()), TYPE_A)))
  {
    FullNameSize();
    hide Dotted, HostName, FullName, QueryCorrect, QueryBytes, SameQuery, Sent, Tokens, Trim;
    TokensHost(FullName());
    QueryReturns(HostName(FullName()), TYPE_A, id, cut, q, next);
  }
}
