/**
 Decoding SNMP messages: snmp_msg.c, snmp_pdu.c and snmp_vars.c of snmplib.
 */
module SnmpDecode {
  import opened Basics
  import opened SnmpAsn
  import opened SnmpOid
  import opened SnmpMsg
  import opened SnmpBer

  // ----- Decoding -----

  /** A header is read exactly where there is one. */
  lemma HeaderIs(packet: seq<byte>, at: nat, left: int)
    ensures forall tag, start, n :: HeaderAt(packet, at, left, tag, start, n) ==>
      (start >= 0 && ParseHeader(packet, at, left) == Some((tag, start, n)))
    ensures ParseHeader(packet, at, left).Some? ==> var (tag, start, n) := ParseHeader(packet, at, left).value;
      HeaderAt(packet, at, left, tag, start, n) && at + 2 <= start <= |packet| && packet[at] == tag && 0 <= n && start - at + n <= left
  {
    hide ParseHeader, ParseLength, LengthAt;
    forall tag, start, n | HeaderAt(packet, at, left, tag, start, n)
      ensures start >= 0 && ParseHeader(packet, at, left) == Some((tag, start, n))
    {
      ObjectPlace(packet, at, tag, start, n);
      HeaderExact(packet, at, left, tag, start, n);
    }
    var h := ParseHeader(packet, at, left);
    if h.Some? {
      HeaderExact(packet, at, left, h.value.0, h.value.1, h.value.2);
      ObjectPlace(packet, at, h.value.0, h.value.1, h.value.2);
    }
  }

  lemma StringIs(packet: seq<byte>, at: nat, left: int, room: int)
    ensures forall p :: StringReads(packet, at, left, room, p) <==> ParseString(packet, at, left, room) == Some(p)
  {
    forall p ensures StringReads(packet, at, left, room, p) <==> ParseString(packet, at, left, room) == Some(p) {
      StringExact(packet, at, left, room, p);
    }
  }

  /** The value of a variable: its type decides how the object is read. */
  method DecodeValue(packet: seq<byte>, at: nat, left: int) returns (r: Option<(Value, nat)>, ghost tight: bool)
    ensures r.Some? ==> ValueReads(packet, at, left, r.value.0, r.value.1, tight) && r.value.1 <= |packet|
    ensures forall v, next: nat, t :: ValueReads(packet, at, left, v, next, t) ==> r == Some((v, next))
    ensures forall v, next: nat, t :: ValueReads(packet, at, left, v, next, t) ==> t == tight
  {
    hide ParseHeader, HeaderAt, IntReads, UnsignedReads, StringReads, OidReads;
    r, tight := None, false;
    HeaderIs(packet, at, left);
    var h := ParseHeader(packet, at, left);
    if h.None? {
      return;
    }
    var (tag, start, _) := h.value;
    ghost var t;
    if tag == ASN_INTEGER {
      var p;
      p, t := ParseInt(packet, at, left);
      if p.Some? {
        r, tight := Some((Integer(p.value.value), p.value.next)), t && p.value.rest == 0;
      }
    } else if IsUnsigned(tag) {
      var p;
      p, t := ParseUnsigned(packet, at, left);
      if p.Some? {
        r, tight := Some((Unsigned(p.value.tag, p.value.value), p.value.next)), t && p.value.rest == 0;
      }
    } else if IsOctets(tag) {
      var p := ParseString(packet, at, left, left);
      StringIs(packet, at, left, left);
      if p.Some? {
        r, tight := Some((Octets(p.value.tag, p.value.value), p.value.next)), p.value.rest == 0;
      }
    } else if tag == ASN_OBJECT_ID {
      var p;
      p, t := ParseOid(packet, at, left, MAX_NAME_LEN);
      if p.Some? {
        r, tight := Some((ObjectId(p.value.value), p.value.next)), t && p.value.rest == 0;
      }
    } else if tag == ASN_NULL || IsException(tag) {
      r, tight := Some((Nothing(tag), start)), start == at + left;
    }
  }

  /** One variable of the list; `all` is what is left of the whole list. */
  method DecodeVar(packet: seq<byte>, at: nat, all: int) returns (r: Option<(Var, nat, int)>, ghost tight: bool)
    ensures r.Some? ==> VarReads(packet, at, all, r.value.0, r.value.1, r.value.2, tight) && r.value.1 <= |packet| && 0 <= r.value.2 < all
    ensures forall x, next: nat, rest, t :: VarReads(packet, at, all, x, next, rest, t) ==> r == Some((x, next, rest))
    ensures forall x, next: nat, rest, t :: VarReads(packet, at, all, x, next, rest, t) ==> t == tight
  {
    hide ParseHeader, HeaderAt, OidReads, ValueReads;
    r, tight := None, false;
    HeaderIs(packet, at, all);
    var h := ParseHeader(packet, at, all);
    if h.None? {
      return;
    }
    var (tag, start, left) := h.value;
    var rest := all - (left + (start - at));
    if tag != ASN_SEQUENCE_CONSTRUCTOR {
      return;
    }
    var o; ghost var t;
    o, t := ParseOid(packet, start, left, MAX_NAME_LEN);
    if o.None? || o.value.tag != ASN_OBJECT_ID {
      return;
    }
    var v; ghost var u;
    v, u := DecodeValue(packet, o.value.next, o.value.rest);
    if v.None? {
      return;
    }
    r, tight := Some((Var(o.value.value, v.value.0), v.value.1, rest)), t && u;
  }

  /** How every reading of a list starts. */
  ghost predicate Begins(data: seq<byte>, at: int, all: int, vars: seq<Var>, cuts: seq<nat>, alls: seq<int>, tights: seq<bool>) {
    forall vs, c, a, ts :: VarsSoFar(data, at, all, vs, c, a, ts) && a[|vs|] == 0 ==>
      |vars| <= |vs| && vars == vs[..|vars|] && cuts == c[..|vars| + 1] && alls == a[..|vars| + 1] && tights == ts[..|vars|]
  }

  /** Something is left, so that every reading goes on with a variable. */
  lemma BeginsMore(data: seq<byte>, at: int, all: int, vars: seq<Var>, cuts: seq<nat>, alls: seq<int>, tights: seq<bool>,
      vs: seq<Var>, c: seq<nat>, a: seq<int>, ts: seq<bool>)
    requires VarsSoFar(data, at, all, vars, cuts, alls, tights) && Begins(data, at, all, vars, cuts, alls, tights) && alls[|vars|] > 0
    requires VarsSoFar(data, at, all, vs, c, a, ts) && a[|vs|] == 0
    ensures var k := |vars|; k < |vs| && VarReads(data, cuts[k], alls[k], vs[k], c[k + 1], a[k + 1], ts[k])
  {
    hide VarReads;
    var k := |vars|;
    assert cuts == c[..k + 1] && alls == a[..k + 1];
    assert c[..k + 1][k] == c[k] && a[..k + 1][k] == a[k];
  }

  lemma BeginsNext(data: seq<byte>, at: int, all: int, vars: seq<Var>, cuts: seq<nat>, alls: seq<int>, tights: seq<bool>,
      x: Var, next: nat, rest: int, t: bool)
    requires VarsSoFar(data, at, all, vars, cuts, alls, tights) && Begins(data, at, all, vars, cuts, alls, tights) && alls[|vars|] > 0
    requires VarReads(data, cuts[|vars|], alls[|vars|], x, next, rest, t)
    requires forall x', next': nat, rest', t' :: VarReads(data, cuts[|vars|], alls[|vars|], x', next', rest', t') ==>
      (x', next', rest', t') == (x, next, rest, t)
    ensures VarsSoFar(data, at, all, vars + [x], cuts + [next], alls + [rest], tights + [t])
    ensures Begins(data, at, all, vars + [x], cuts + [next], alls + [rest], tights + [t])
  {
    hide VarReads;
    var k := |vars|;
    forall vs, c, a, ts | VarsSoFar(data, at, all, vs, c, a, ts) && a[|vs|] == 0
      ensures k + 1 <= |vs| && vars + [x] == vs[..k + 1] && cuts + [next] == c[..k + 2] &&
        alls + [rest] == a[..k + 2] && tights + [t] == ts[..k + 1]
    {
      BeginsMore(data, at, all, vars, cuts, alls, tights, vs, c, a, ts);
      assert vs[..k + 1] == vs[..k] + [vs[k]] && ts[..k + 1] == ts[..k] + [ts[k]];
      assert c[..k + 2] == c[..k + 1] + [c[k + 1]] && a[..k + 2] == a[..k + 1] + [a[k + 1]];
    }
  }

  /** Nothing is left, so that there is one reading. */
  lemma BeginsAll(data: seq<byte>, at: int, all: int, vars: seq<Var>, cuts: seq<nat>, alls: seq<int>, tights: seq<bool>,
      vs: seq<Var>, c: seq<nat>, a: seq<int>, ts: seq<bool>)
    requires VarsSoFar(data, at, all, vars, cuts, alls, tights) && Begins(data, at, all, vars, cuts, alls, tights) && alls[|vars|] == 0
    requires VarsSoFar(data, at, all, vs, c, a, ts) && a[|vs|] == 0
    ensures vars == vs && tights == ts
  {
    hide VarReads;
    var k := |vars|;
    assert vars == vs[..k] && tights == ts[..k];
    if k < |vs| {
      assert alls == a[..k + 1] && a[..k + 1][k] == a[k];
      VarNeeds(data, c[k], a[k], vs[k], c[k + 1], a[k + 1], ts[k]);
    }
  }

  lemma VarNeeds(data: seq<byte>, at: int, all: int, x: Var, next: nat, rest: int, t: bool)
    requires VarReads(data, at, all, x, next, rest, t)
    ensures all >= 2
  {
    hide ObjectAt, OidReads, ValueReads;
    var start, n, o: Parsed<seq<int>>, u, w :|
      HeaderAt(data, at, all, ASN_SEQUENCE_CONSTRUCTOR, start, n) && rest == all - (n + (start - at)) &&
      OidReads(data, start, n, MAX_NAME_LEN, o, u) && o.tag == ASN_OBJECT_ID && o.value == x.name &&
      ValueReads(data, o.next, o.rest, x.value, next, w) && t == (u && w);
    ObjectPlace(data, at, ASN_SEQUENCE_CONSTRUCTOR, start, n);
  }

  /** snmp_var_DecodeVarBind. */
  method DecodeVars(packet: seq<byte>, at: nat, left: int) returns (r: Option<seq<Var>>, ghost tight: bool)
    ensures r.Some? ==> ListReads(packet, at, left, r.value, tight)
    ensures forall vars, t :: ListReads(packet, at, left, vars, t) ==> r == Some(vars)
    ensures forall vars, t :: ListReads(packet, at, left, vars, t) ==> t == tight
  {
    hide ParseHeader, HeaderAt, VarReads, VarsSoFar, Begins;
    r, tight := None, false;
    HeaderIs(packet, at, left);
    var h := ParseHeader(packet, at, left);
    if h.None? {
      return;
    }
    var (tag, start, n) := h.value;
    if tag != ASN_SEQUENCE_CONSTRUCTOR {
      return;
    }
    var vars: seq<Var>, p, all := [], start, n;
    ghost var cuts: seq<nat>, alls, tights := [start], [n], [];
    BeginsEmpty(packet, start, n);
    while all > 0
      invariant |cuts| == |alls| == |vars| + 1 && cuts[|vars|] == p && alls[|vars|] == all && all >= 0
      invariant VarsSoFar(packet, start, n, vars, cuts, alls, tights) && Begins(packet, start, n, vars, cuts, alls, tights)
      decreases all
    {
      var x; ghost var t;
      x, t := DecodeVar(packet, p, all);
      if x.None? {
        NoList(packet, at, left, start, n, vars, cuts, alls, tights);
        return;
      }
      BeginsNext(packet, start, n, vars, cuts, alls, tights, x.value.0, x.value.1, x.value.2, t);
      vars, cuts, alls, tights := vars + [x.value.0], cuts + [x.value.1], alls + [x.value.2], tights + [t];
      p, all := x.value.1, x.value.2;
    }
    r, tight := Some(vars), AllTight(tights) && start + n == at + left;
    OneList(packet, at, left, start, n, vars, cuts, alls, tights);
  }

  lemma BeginsEmpty(data: seq<byte>, at: nat, all: int)
    ensures VarsSoFar(data, at, all, [], [at], [all], []) && Begins(data, at, all, [], [at], [all], [])
  {
    hide VarReads;
    forall vs, c, a, ts | VarsSoFar(data, at, all, vs, c, a, ts) && a[|vs|] == 0
      ensures [] == vs[..0] && [at] == c[..1] && [all] == a[..1] && [] == ts[..0]
    {
    }
  }

  lemma NoList(data: seq<byte>, at: int, left: int, start: int, n: int, vars: seq<Var>, cuts: seq<nat>, alls: seq<int>, tights: seq<bool>)
    requires HeaderAt(data, at, left, ASN_SEQUENCE_CONSTRUCTOR, start, n)
    requires VarsSoFar(data, start, n, vars, cuts, alls, tights) && Begins(data, start, n, vars, cuts, alls, tights) && alls[|vars|] > 0
    requires forall x, next: nat, rest, t :: !VarReads(data, cuts[|vars|], alls[|vars|], x, next, rest, t)
    ensures forall vs, t :: !ListReads(data, at, left, vs, t)
  {
    hide ObjectAt, VarReads, Begins, AllTight;
    forall vs, t ensures !ListReads(data, at, left, vs, t) {
      if ListReads(data, at, left, vs, t) {
        var start', n', c, a, ts :| HeaderAt(data, at, left, ASN_SEQUENCE_CONSTRUCTOR, start', n') && VarsSoFar(data, start', n', vs, c, a, ts) &&
          a[|vs|] == 0 && t == (AllTight(ts) && start' + n' == at + left);
        ObjectSame(data, at, ASN_SEQUENCE_CONSTRUCTOR, start, n, ASN_SEQUENCE_CONSTRUCTOR, start', n');
        BeginsMore(data, start, n, vars, cuts, alls, tights, vs, c, a, ts);
      }
    }
  }

  lemma OneList(data: seq<byte>, at: int, left: int, start: int, n: int, vars: seq<Var>, cuts: seq<nat>, alls: seq<int>, tights: seq<bool>)
    requires HeaderAt(data, at, left, ASN_SEQUENCE_CONSTRUCTOR, start, n)
    requires VarsSoFar(data, start, n, vars, cuts, alls, tights) && Begins(data, start, n, vars, cuts, alls, tights) && alls[|vars|] == 0
    ensures var tight := AllTight(tights) && start + n == at + left;
      ListReads(data, at, left, vars, tight) && forall vs, t :: ListReads(data, at, left, vs, t) ==> vs == vars && t == tight
  {
    hide ObjectAt, VarReads, Begins, AllTight;
    forall vs, t | ListReads(data, at, left, vs, t) ensures vs == vars && t == (AllTight(tights) && start + n == at + left) {
      var start', n', c, a, ts :| HeaderAt(data, at, left, ASN_SEQUENCE_CONSTRUCTOR, start', n') && VarsSoFar(data, start', n', vs, c, a, ts) &&
        a[|vs|] == 0 && t == (AllTight(ts) && start' + n' == at + left);
      ObjectSame(data, at, ASN_SEQUENCE_CONSTRUCTOR, start, n, ASN_SEQUENCE_CONSTRUCTOR, start', n');
      BeginsAll(data, start, n, vars, cuts, alls, tights, vs, c, a, ts);
    }
  }

  /** The integers of a PDU. */
  method DecodeInts(packet: seq<byte>, at: nat, left: int) returns (r: Option<((int, int, int), nat, int)>, ghost tight: bool)
    ensures r.Some? ==> var ((a, b, c), next, rest) := r.value; IntsRead(packet, at, left, a, b, c, next, rest, tight)
    ensures forall a, b, c, next: nat, rest, t ::
      IntsRead(packet, at, left, a, b, c, next, rest, t) ==> r == Some(((a, b, c), next, rest))
    ensures forall a, b, c, next: nat, rest, t :: IntsRead(packet, at, left, a, b, c, next, rest, t) ==> t == tight
  {
    hide IntReads;
    r, tight := None, false;
    var x; ghost var t;
    x, t := ParseInt(packet, at, left);
    if x.None? {
      return;
    }
    var y; ghost var u;
    y, u := ParseInt(packet, x.value.next, x.value.rest);
    if y.None? {
      return;
    }
    var z; ghost var w;
    z, w := ParseInt(packet, y.value.next, y.value.rest);
    if z.None? {
      return;
    }
    r, tight := Some(((x.value.value, y.value.value, z.value.value), z.value.next, z.value.rest)), t && u && w;
  }

  /** snmp_pdu_decode and the variables after it. */
  method DecodePdu(packet: seq<byte>, at: nat, left: int) returns (r: Option<Pdu>, ghost tight: bool)
    ensures r.Some? ==> PduReads(packet, at, left, r.value, tight)
    ensures forall p, t :: PduReads(packet, at, left, p, t) ==> r == Some(p)
    ensures forall p, t :: PduReads(packet, at, left, p, t) ==> t == tight
  {
    hide ParseHeader, HeaderAt, IntsRead, ListReads;
    r, tight := None, false;
    HeaderIs(packet, at, left);
    var h := ParseHeader(packet, at, left);
    if h.None? {
      return;
    }
    var (command, start, n) := h.value;
    var ints; ghost var t;
    ints, t := DecodeInts(packet, start, n);
    if ints.None? {
      return;
    }
    var ((a, b, c), next, rest) := ints.value;
    var vars; ghost var u;
    vars, u := DecodeVars(packet, next, rest);
    if vars.None? {
      return;
    }
    r, tight := Some(Pdu(command, a, b, c, vars.value)), t && u && start + n == at + left;
  }

  /**
   snmp_msg_Decode gives a message exactly if the packet reads as that message.  So it gives
   every message that fits and that the packet spells, whatever lengths were chosen; and of a
   packet that reads tightly, what it gives is spelled.  `room` is the size of the community buffer.
   */
  method DecodeMessage(packet: seq<byte>, room: nat) returns (r: Option<Message>, ghost tight: bool)
    ensures r.Some? ==> MessageReads(packet, room, r.value, tight)
    ensures forall m, t :: MessageReads(packet, room, m, t) ==> r == Some(m)
    ensures forall m, t :: MessageReads(packet, room, m, t) ==> t == tight
    ensures forall m :: Spells(packet, m) && MessageRoom(m, room) <==> r == Some(m) && tight
    ensures forall m :: MessageFits(m) && |m.community| <= room && packet == MessageBytes(m) ==> r == Some(MessageArrives(m))
  {
    hide MessageReads, Spells, MessageRoom, MessageBytes, VarsFit, VarsOk, MessageBody;
    r, tight := ReadMessage(packet, room);
    forall m ensures Spells(packet, m) && MessageRoom(m, room) <==> r == Some(m) && tight {
      MessageTight(packet, room, m);
    }
    forall m | MessageFits(m) && |m.community| <= room && packet == MessageBytes(m) ensures r == Some(MessageArrives(m)) {
      EncodedSpelt(m, room);
    }
  }

  method ReadMessage(packet: seq<byte>, room: nat) returns (r: Option<Message>, ghost tight: bool)
    ensures r.Some? ==> MessageReads(packet, room, r.value, tight)
    ensures forall m, t :: MessageReads(packet, room, m, t) ==> r == Some(m)
    ensures forall m, t :: MessageReads(packet, room, m, t) ==> t == tight
  {
    hide ParseHeader, HeaderAt, IntReads, StringReads, PduReads, ParseString;
    r, tight := None, false;
    HeaderIs(packet, 0, |packet|);
    var h := ParseHeader(packet, 0, |packet|);
    if h.None? || h.value.0 != ASN_SEQUENCE_CONSTRUCTOR {
      return;
    }
    var (_, start, n) := h.value;
    var version; ghost var t;
    version, t := ParseInt(packet, start, n);
    if version.None? {
      return;
    }
    StringIs(packet, version.value.next, version.value.rest, room);
    var community := ParseString(packet, version.value.next, version.value.rest, room);
    if community.None? {
      return;
    }
    var pdu; ghost var u;
    pdu, u := DecodePdu(packet, community.value.next, community.value.rest);
    if pdu.None? {
      return;
    }
    r, tight := Some(Message(version.value.value, community.value.value, pdu.value)), t && u && start + n == |packet|;
  }

  // ----- What the encoder writes is spelled -----

  predicate NameFits(oid: seq<int>) {
    Faithful(oid) && |oid| <= MAX_NAME_LEN
  }

  /** What the decoder can give back: object identifiers that their encodings determine and
      that fit its buffers. */
  predicate VarFits(x: Var, version: int) {
    && VarOk(x) && !x.value.Other? && NameFits(x.name) && (x.value.ObjectId? ==> NameFits(x.value.oid))
    && |VarBody(x, version)| <= MAX_LENGTH
  }

  predicate VarsFit(vars: seq<Var>, version: int) {
    forall i :: 0 <= i < |vars| ==> VarFits(vars[i], version)
  }

  predicate MessageFits(m: Message) {
    && MessageOk(m) && Supported(m.pdu.vars) && VarsFit(m.pdu.vars, m.version) && m.pdu.command % 32 != 31
    && |MessageBody(m)| <= MAX_LENGTH
  }

  /** Under version 1 all exceptions arrive as noSuchObject. */
  function Arrives(v: Value, version: int): Value {
    if v.Nothing? then Nothing(NothingTag(v.ntag, version)) else v
  }

  function VarArrives(x: Var, version: int): Var {
    Var(x.name, Arrives(x.value, version))
  }

  function VarsArrive(vars: seq<Var>, version: int): (r: seq<Var>)
    ensures |r| == |vars|
  {
    seq(|vars|, i requires 0 <= i < |vars| => VarArrives(vars[i], version))
  }

  function MessageArrives(m: Message): Message {
    m.(pdu := m.pdu.(vars := VarsArrive(m.pdu.vars, m.version)))
  }

  /** Under any other version a message arrives as it was sent, and under version 1 exactly if
      its exceptions are noSuchObject. */
  lemma ArrivesUnchanged(m: Message)
    requires MessageOk(m)
    ensures MessageArrives(m) == m <==>
      m.version != SNMP_VERSION_1 || forall i :: 0 <= i < |m.pdu.vars| && m.pdu.vars[i].value.Nothing? && IsException(m.pdu.vars[i].value.ntag) ==>
        m.pdu.vars[i].value.ntag == SMI_NOSUCHOBJECT
  {
    var vars := m.pdu.vars;
    forall i | 0 <= i < |vars| ensures VarArrives(vars[i], m.version) == vars[i] <==>
      (m.version == SNMP_VERSION_1 && vars[i].value.Nothing? && IsException(vars[i].value.ntag) ==> vars[i].value.ntag == SMI_NOSUCHOBJECT)
    {
    }
    if VarsArrive(vars, m.version) == vars {
      forall i | 0 <= i < |vars| ensures VarArrives(vars[i], m.version) == vars[i] {
        assert VarsArrive(vars, m.version)[i] == vars[i];
      }
    }
  }

  function ValueTag(v: Value, version: int): byte {
    match v
    case Integer(_) => ASN_INTEGER
    case Unsigned(tag, _) => tag
    case Octets(tag, _) => tag
    case ObjectId(_) => ASN_OBJECT_ID
    case Nothing(tag) => NothingTag(tag, version)
    case Other => ASN_NULL
  }

  function ValueBody(v: Value): seq<byte>
    requires ValueOk(v) && !v.Other?
  {
    match v
    case Integer(i) => IntBytes(i)
    case Unsigned(_, u) => IntBytes(u)
    case Octets(_, s) => s
    case ObjectId(oid) => OidBytes(oid)
    case Nothing(_) => []
  }

  lemma ValueTlv(v: Value, version: int)
    requires ValueOk(v) && !v.Other?
    ensures ValueBytes(v, version) == Tlv(ValueTag(v, version), ValueBody(v)) && ValueTag(v, version) % 32 != 31
    ensures |ValueBody(v)| <= |ValueBytes(v, version)|
  {
  }

  lemma IntSpelt(data: seq<byte>, at: nat, tag: byte, v: int)
    requires Int32(v) && Holds(data, at, Tlv(tag, IntBytes(v)))
    ensures SpeltInt(data, at, at + |Tlv(tag, IntBytes(v))|, tag, v)
  {
    hide Tlv, IntBytes, IntReads, SpeltInt;
    var n := |Tlv(tag, IntBytes(v))|;
    IntReturns(data, at, n, tag, v);
    IntTight(data, at, n, Parsed(tag, v, at + n, 0));
  }

  lemma UnsignedSpelt(data: seq<byte>, at: nat, tag: byte, v: int)
    requires Uint32(v) && Holds(data, at, Tlv(tag, IntBytes(v)))
    ensures SpeltUnsigned(data, at, at + |Tlv(tag, IntBytes(v))|, tag, v)
  {
    hide Tlv, IntBytes, UnsignedReads, SpeltUnsigned;
    var n := |Tlv(tag, IntBytes(v))|;
    UnsignedReturns(data, at, n, tag, v);
    UnsignedTight(data, at, n, Parsed(tag, v, at + n, 0));
  }

  lemma StringSpelt(data: seq<byte>, at: nat, tag: byte, s: seq<byte>)
    requires Holds(data, at, Tlv(tag, s)) && |Tlv(tag, s)| <= MAX_LENGTH
    ensures SpeltString(data, at, at + |Tlv(tag, s)|, tag, s)
  {
    hide Tlv, StringReads, SpeltString;
    TlvSize(tag, s);
    var n := |Tlv(tag, s)|;
    StringReturns(data, at, n, |s|, tag, s);
    StringTight(data, at, n, |s|, Parsed(tag, s, at + n, 0));
  }

  lemma OidSpelt(data: seq<byte>, at: nat, tag: byte, oid: seq<int>)
    requires NameFits(oid) && |OidBytes(oid)| <= MAX_OID_LEN && Holds(data, at, Tlv(tag, OidBytes(oid)))
    ensures SpeltOid(data, at, at + |Tlv(tag, OidBytes(oid))|, tag, oid)
  {
    hide Tlv, OidBytes, OidReads, SpeltOid, Faithful;
    FaithfulWords(oid);
    var n := |Tlv(tag, OidBytes(oid))|;
    OidReturns(data, at, n, MAX_NAME_LEN, tag, oid);
    OidIsTight(data, at, n, MAX_NAME_LEN, Parsed(tag, oid, at + n, 0));
  }

  lemma FaithfulWords(oid: seq<int>)
    requires Faithful(oid)
    ensures Words(oid)
  {
  }

  lemma TlvEnclosed(data: seq<byte>, at: nat, tag: byte, body: seq<byte>) returns (start: nat)
    requires Holds(data, at, Tlv(tag, body)) && |body| <= MAX_LENGTH && tag % 32 != 31
    ensures Enclosed(data, at, tag, start, at + |Tlv(tag, body)|) && |Tlv(tag, body)| == start - at + |body|
  {
    hide Tlv, ObjectAt;
    TlvObject(data, at, tag, body);
    start := at + 1 + |LengthBytes(|body|)|;
  }

  lemma WideEnclosed(data: seq<byte>, at: nat, tag: byte, body: seq<byte>)
    requires Holds(data, at, Wide(tag, body)) && |body| <= MAX_LENGTH && tag % 32 != 31
    ensures Enclosed(data, at, tag, at + 4, at + |Wide(tag, body)|) && |Wide(tag, body)| == 4 + |body| && Holds(data, at + 4, body)
  {
    hide Wide, ObjectAt;
    WideObject(data, at, tag, body);
  }

  lemma ValueSpelt(data: seq<byte>, at: nat, v: Value, version: int)
    requires ValueOk(v) && !v.Other? && (v.ObjectId? ==> NameFits(v.oid)) && |ValueBytes(v, version)| <= MAX_LENGTH
    requires Holds(data, at, ValueBytes(v, version))
    ensures SpeltValue(data, at, at + |ValueBytes(v, version)|, Arrives(v, version)) && ValueRoom(Arrives(v, version))
  {
    hide Tlv, ValueBytes, ValueBody, SpeltAs, Enclosed, ValueOk, NameFits;
    ValueTlv(v, version);
    NameRoom(v);
    var start := TlvEnclosed(data, at, ValueTag(v, version), ValueBody(v));
    AsSpelt(data, at, v, version, start);
  }

  lemma NameRoom(v: Value)
    requires v.ObjectId? ==> NameFits(v.oid)
    ensures ValueRoom(v)
  {
  }

  lemma AsSpelt(data: seq<byte>, at: nat, v: Value, version: int, start: int)
    requires ValueOk(v) && !v.Other? && (v.ObjectId? ==> NameFits(v.oid)) && |ValueBytes(v, version)| <= MAX_LENGTH
    requires Holds(data, at, ValueBytes(v, version)) && |ValueBytes(v, version)| == start - at + |ValueBody(v)|
    ensures SpeltAs(data, at, ValueTag(v, version), start, at + |ValueBytes(v, version)|, Arrives(v, version))
  {
    hide Tlv, IntBytes, OidBytes, SpeltInt, SpeltUnsigned, SpeltString, SpeltOid, NameFits, Words, Holds;
    var tag := ValueTag(v, version);
    match v
    case Integer(i) => IntSpelt(data, at, tag, i);
    case Unsigned(_, u) => UnsignedSpelt(data, at, tag, u);
    case Octets(_, s) => StringSpelt(data, at, tag, s);
    case ObjectId(oid) => OidSpelt(data, at, tag, oid);
    case Nothing(_) =>
  }

  lemma VarSpelt(data: seq<byte>, at: nat, x: Var, version: int)
    requires VarFits(x, version) && Holds(data, at, Wide(ASN_SEQUENCE_CONSTRUCTOR, VarBody(x, version)))
    ensures SpeltVar(data, at, at + |Wide(ASN_SEQUENCE_CONSTRUCTOR, VarBody(x, version))|, VarArrives(x, version)) && VarRoom(VarArrives(x, version))
  {
    hide Wide, Tlv, ValueBytes, OidBytes, SpeltOid, SpeltValue, Enclosed, Words, ValueOk, Arrives, ValueRoom;
    var name, value := Tlv(ASN_OBJECT_ID, OidBytes(x.name)), ValueBytes(x.value, version);
    WideEnclosed(data, at, ASN_SEQUENCE_CONSTRUCTOR, VarBody(x, version));
    HoldsSplit(data, at + 4, name, value);
    OidSpelt(data, at + 4, ASN_OBJECT_ID, x.name);
    ValueSpelt(data, at + 4 + |name|, x.value, version);
  }

  lemma {:induction false} VarsSpelt(data: seq<byte>, at: nat, vars: seq<Var>, version: int) returns (cuts: seq<nat>)
    requires VarsOk(vars) && Supported(vars) && VarsFit(vars, version) && Holds(data, at, VarsBytes(vars, version))
    ensures SpeltVars(data, at, at + |VarsBytes(vars, version)|, VarsArrive(vars, version), cuts) && VarsRoom(VarsArrive(vars, version))
    decreases |vars|
  {
    hide VarBody, Wide, VarFits, VarOk, SpeltVar, VarRoom, VarArrives;
    if vars == [] {
      cuts := [at];
    } else {
      var first, rest := Wide(ASN_SEQUENCE_CONSTRUCTOR, VarBody(vars[0], version)), vars[1..];
      HoldsSplit(data, at, first, VarsBytes(rest, version));
      VarSpelt(data, at, vars[0], version);
      var more := VarsSpelt(data, at + |first|, rest, version);
      cuts := [at] + more;
      ConsVar(data, at, at + |VarsBytes(vars, version)|, VarsArrive(vars, version), VarsArrive(rest, version), more);
    }
  }

  lemma ConsVar(data: seq<byte>, at: nat, end: int, vars: seq<Var>, rest: seq<Var>, cuts: seq<nat>)
    requires |vars| == |rest| + 1 && (forall i :: 0 <= i < |rest| ==> vars[i + 1] == rest[i]) && cuts != []
    requires SpeltVar(data, at, cuts[0], vars[0]) && VarRoom(vars[0]) && SpeltVars(data, cuts[0], end, rest, cuts) && VarsRoom(rest)
    ensures SpeltVars(data, at, end, vars, [at] + cuts) && VarsRoom(vars)
  {
    hide SpeltVar, VarRoom;
    var all := [at] + cuts;
    forall i | 0 <= i < |vars| ensures SpeltVar(data, all[i], all[i + 1], vars[i]) && VarRoom(vars[i]) {
      if i > 0 {
        assert vars[i - 1 + 1] == rest[i - 1] && SpeltVar(data, cuts[i - 1], cuts[i], rest[i - 1]);
      }
    }
  }

  lemma PduSpelt(data: seq<byte>, at: nat, p: Pdu, version: int)
    requires Int32(p.reqid) && Int32(p.first) && Int32(p.second) && VarsOk(p.vars) && Supported(p.vars) && VarsFit(p.vars, version)
    requires p.command % 32 != 31 && |PduBody(p, version)| <= MAX_LENGTH && Holds(data, at, Wide(p.command, PduBody(p, version)))
    ensures SpeltPdu(data, at, at + |Wide(p.command, PduBody(p, version))|, p.(vars := VarsArrive(p.vars, version)))
    ensures VarsRoom(VarsArrive(p.vars, version))
  {
    hide Wide, IntTlv, VarsBytes, VarsFit, VarsOk, Supported, Enclosed, SpeltInts, SpeltVars, VarsRoom;
    var ints, list := PduInts(p), VarsBytes(p.vars, version);
    WideEnclosed(data, at, p.command, PduBody(p, version));
    HoldsSplit(data, at + 4, ints, Wide(ASN_SEQUENCE_CONSTRUCTOR, list));
    IntsSpelt(data, at + 4, p.reqid, p.first, p.second);
    var mid := at + 4 + |ints|;
    WideSize(ASN_SEQUENCE_CONSTRUCTOR, list);
    WideEnclosed(data, mid, ASN_SEQUENCE_CONSTRUCTOR, list);
    var cuts := VarsSpelt(data, mid + 4, p.vars, version);
    assert SpeltList(data, mid, mid + 4 + |list|, VarsArrive(p.vars, version));
  }

  lemma IntsSpelt(data: seq<byte>, at: nat, a: int, b: int, c: int)
    requires Int32(a) && Int32(b) && Int32(c) && Holds(data, at, IntTlv(a) + IntTlv(b) + IntTlv(c))
    ensures SpeltInts(data, at, at + |IntTlv(a) + IntTlv(b) + IntTlv(c)|, a, b, c)
  {
    hide Tlv, IntBytes, SpeltInt;
    HoldsSplit(data, at, IntTlv(a) + IntTlv(b), IntTlv(c));
    HoldsSplit(data, at, IntTlv(a), IntTlv(b));
    IntSpelt(data, at, ASN_INTEGER, a);
    IntSpelt(data, at + |IntTlv(a)|, ASN_INTEGER, b);
    IntSpelt(data, at + |IntTlv(a)| + |IntTlv(b)|, ASN_INTEGER, c);
  }

  /** What snmp_msg_Encode wrote spells the message, as its version lets it arrive. */
  lemma EncodedSpelt(m: Message, room: nat)
    requires MessageFits(m) && |m.community| <= room
    ensures Spells(MessageBytes(m), MessageArrives(m)) && MessageRoom(MessageArrives(m), room)
  {
    hide Wide, Tlv, IntBytes, PduBody, VarsFit, VarsOk, Supported, Enclosed, SpeltInt, SpeltString, SpeltPdu, VarsRoom;
    var data := MessageBytes(m);
    var version, community, pdu := IntTlv(m.version), Tlv(ASN_OCTET_STR, m.community), Wide(m.pdu.command, PduBody(m.pdu, m.version));
    WholePacket(data);
    WideEnclosed(data, 0, ASN_SEQUENCE_CONSTRUCTOR, MessageBody(m));
    HoldsSplit(data, 4, version + community, pdu);
    HoldsSplit(data, 4, version, community);
    var p := 4 + |version|;
    var q := p + |community|;
    IntSpelt(data, 4, ASN_INTEGER, m.version);
    StringSpelt(data, p, ASN_OCTET_STR, m.community);
    WideSize(m.pdu.command, PduBody(m.pdu, m.version));
    PduSpelt(data, q, m.pdu, m.version);
  }

  lemma WholePacket(packet: seq<byte>)
    ensures Holds(packet, 0, packet)
  {
  }

  lemma TlvSize(tag: byte, body: seq<byte>)
    ensures |body| < |Tlv(tag, body)|
  {
  }

  // ----- Packets that are accepted and spell nothing -----

  /** A response without variables, as short as it can be written. */
  const BARE: seq<byte> := [0x30, 0x12, 2, 1, 0, 4, 0, 0xA2, 0x0B, 2, 1, 7, 2, 1, 0, 2, 1, 0, 0x30, 0]

  lemma ShortObject(data: seq<byte>, at: nat)
    requires at + 2 <= |data| && data[at + 1] < ASN_LONG_LEN
    ensures ObjectAt(data, at, data[at], at + 2, data[at + 1])
  {
    LengthExact(data, at + 1, data[at + 1], at + 2);
  }

  lemma ShortInt(data: seq<byte>, at: nat, left: int)
    requires at + 3 <= |data| && data[at + 1] == 1 && data[at + 2] < 0x80 && left >= 3
    ensures IntReads(data, at, left, Parsed(data[at], data[at + 2], at + 3, left - 3), true)
  {
    ShortObject(data, at);
    hide ObjectAt;
    assert data[at + 2..at + 3] == [data[at + 2]];
    assert BigEndian([data[at + 2]]) == data[at + 2] by {
      assert [data[at + 2]][..0] == [];
    }
    assert IntValue(data, at + 2, 1) == data[at + 2];
  }

  lemma EmptyString(data: seq<byte>, at: nat, left: int, room: nat)
    requires at + 2 <= |data| && data[at + 1] == 0 && left >= 2
    ensures StringReads(data, at, left, room, Parsed(data[at], [], at + 2, left - 2))
  {
    ShortObject(data, at);
    hide ObjectAt;
    assert data[at + 2..at + 2] == [];
  }

  lemma EmptyList(data: seq<byte>, at: nat)
    requires at + 2 <= |data| && data[at] == ASN_SEQUENCE_CONSTRUCTOR && data[at + 1] == 0
    ensures ListReads(data, at, 2, [], true)
  {
    ShortObject(data, at);
    hide ObjectAt;
    assert HeaderAt(data, at, 2, ASN_SEQUENCE_CONSTRUCTOR, at + 2, 0);
    assert VarsSoFar(data, at + 2, 0, [], [at + 2], [0], []);
  }

  lemma BarePdu(data: seq<byte>, at: nat)
    requires at + 13 <= |data| && data[at] == 0xA2 && data[at + 1] == 11
    requires data[at + 3] == data[at + 6] == data[at + 9] == 1 && data[at + 4] == 7 && data[at + 7] == data[at + 10] == 0
    requires data[at + 11] == ASN_SEQUENCE_CONSTRUCTOR && data[at + 12] == 0
    ensures PduReads(data, at, 13, Pdu(0xA2, 7, 0, 0, []), true)
  {
    hide LengthAt, IntReads, ListReads;
    ShortObject(data, at);
    ShortInt(data, at + 2, 11);
    ShortInt(data, at + 5, 8);
    ShortInt(data, at + 8, 5);
    EmptyList(data, at + 11);
    assert IntsRead(data, at + 2, 11, 7, 0, 0, at + 11, 2, true);
    assert HeaderAt(data, at, 13, 0xA2, at + 2, 11);
  }

  lemma BareMessage(data: seq<byte>, room: nat)
    requires |data| >= 20 && data[0] == ASN_SEQUENCE_CONSTRUCTOR && data[1] == 18 && data[3] == 1 && data[4] == data[6] == 0
    requires PduReads(data, 7, 13, Pdu(0xA2, 7, 0, 0, []), true)
    ensures MessageReads(data, room, Message(0, [], Pdu(0xA2, 7, 0, 0, [])), |data| == 20)
    ensures |data| > 20 ==> forall m :: !Spells(data, m)
  {
    hide LengthAt, IntReads, StringReads, PduReads;
    ShortObject(data, 0);
    ShortInt(data, 2, 18);
    EmptyString(data, 5, 15, room);
    assert HeaderAt(data, 0, |data|, ASN_SEQUENCE_CONSTRUCTOR, 2, 18);
    if |data| > 20 {
      forall m ensures !Spells(data, m) {
        LongerSpellsNothing(data, m);
      }
    }
  }

  lemma LongerSpellsNothing(data: seq<byte>, m: Message)
    requires |data| > 20 && ObjectAt(data, 0, ASN_SEQUENCE_CONSTRUCTOR, 2, 18)
    ensures !Spells(data, m)
  {
    hide ObjectAt, SpeltInt, SpeltString, SpeltPdu;
    if Spells(data, m) {
      var start, tag, p, tag', q :| Enclosed(data, 0, ASN_SEQUENCE_CONSTRUCTOR, start, |data|) &&
        SpeltInt(data, start, p, tag, m.version) && SpeltString(data, p, q, tag', m.community) && SpeltPdu(data, q, |data|, m.pdu);
      ObjectSame(data, 0, ASN_SEQUENCE_CONSTRUCTOR, 2, 18, ASN_SEQUENCE_CONSTRUCTOR, start, |data| - start);
    }
  }

  /** Accepted is not spelled: what follows a message is not looked at. */
  lemma LooseAccepted(more: seq<byte>, room: nat)
    ensures MessageReads(BARE + more, room, Message(0, [], Pdu(0xA2, 7, 0, 0, [])), more == [])
    ensures (exists m :: Spells(BARE + more, m)) <==> more == []
  {
    hide PduReads, MessageReads, Spells;
    BarePdu(BARE + more, 7);
    BareMessage(BARE + more, room);
    MessageTight(BARE + more, room, Message(0, [], Pdu(0xA2, 7, 0, 0, [])));
  }
}
