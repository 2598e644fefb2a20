/**
 SNMP messages: snmp_msg.c, snmp_pdu.c and snmp_vars.c of snmplib.  The encoder writes nested
 headers with made-up lengths and overwrites them when the contents are in place.
 */
module SnmpMsg {
  import opened Basics
  import opened SnmpAsn
  import opened SnmpOid

  const SNMP_VERSION_1 := 0
  const SMI_NOSUCHOBJECT: byte := 0x80
  const MAX_NAME_LEN := 64

  /** `Other` stands for the types that cannot be encoded. */
  datatype Value =
    | Integer(i: int)
    | Unsigned(utag: byte, u: int)
    | Octets(otag: byte, s: seq<byte>)
    | ObjectId(oid: seq<int>)
    | Nothing(ntag: byte)
    | Other

  datatype Var = Var(name: seq<int>, value: Value)

  /** `first` and `second` are error status and index, or for a bulk request the
      non-repeaters and maximum repetitions. */
  datatype Pdu = Pdu(command: byte, reqid: int, first: int, second: int, vars: seq<Var>)

  datatype Message = Message(version: int, community: seq<byte>, pdu: Pdu)

  predicate IsUnsigned(tag: byte) {
    tag == 0x41 || tag == 0x42 || tag == 0x43
  }

  predicate IsOctets(tag: byte) {
    tag == ASN_OCTET_STR || tag == 0x40 || tag == 0x44
  }

  predicate IsException(tag: byte) {
    tag == 0x80 || tag == 0x81 || tag == 0x82
  }

  /** What the encoder takes: 32-bit numbers and object identifiers that fit its buffer. */
  predicate ValueOk(v: Value) {
    match v
    case Integer(i) => Int32(i)
    case Unsigned(tag, u) => IsUnsigned(tag) && Uint32(u)
    case Octets(tag, _) => IsOctets(tag)
    case ObjectId(oid) => NameOk(oid)
    case Nothing(tag) => tag == ASN_NULL || IsException(tag)
    case Other => true
  }

  predicate NameOk(oid: seq<int>) {
    Words(oid) && |OidBytes(oid)| <= MAX_OID_LEN
  }

  predicate VarOk(x: Var) {
    NameOk(x.name) && ValueOk(x.value)
  }

  predicate VarsOk(vars: seq<Var>) {
    forall i :: 0 <= i < |vars| ==> VarOk(vars[i])
  }

  predicate Supported(vars: seq<Var>) {
    forall i :: 0 <= i < |vars| ==> !vars[i].value.Other?
  }

  predicate MessageOk(m: Message) {
    Int32(m.version) && Int32(m.pdu.reqid) && Int32(m.pdu.first) && Int32(m.pdu.second) && VarsOk(m.pdu.vars)
  }

  // ----- Encodings -----

  /** Version 1 has only one exception. */
  function NothingTag(tag: byte, version: int): byte {
    if version == SNMP_VERSION_1 && IsException(tag) then SMI_NOSUCHOBJECT else tag
  }

  function ValueBytes(v: Value, version: int): seq<byte>
    requires ValueOk(v) && !v.Other?
  {
    match v
    case Integer(i) => Tlv(ASN_INTEGER, IntBytes(i))
    case Unsigned(tag, u) => Tlv(tag, IntBytes(u))
    case Octets(tag, s) => Tlv(tag, s)
    case ObjectId(oid) => Tlv(ASN_OBJECT_ID, OidBytes(oid))
    case Nothing(tag) => Tlv(NothingTag(tag, version), [])
  }

  function VarBody(x: Var, version: int): seq<byte>
    requires VarOk(x) && !x.value.Other?
  {
    Tlv(ASN_OBJECT_ID, OidBytes(x.name)) + ValueBytes(x.value, version)
  }

  function VarsBytes(vars: seq<Var>, version: int): seq<byte>
    requires VarsOk(vars) && Supported(vars)
  {
    if vars == [] then [] else Wide(ASN_SEQUENCE_CONSTRUCTOR, VarBody(vars[0], version)) + VarsBytes(vars[1..], version)
  }

  function IntTlv(v: int): seq<byte>
    requires Int32(v)
  {
    Tlv(ASN_INTEGER, IntBytes(v))
  }

  function PduInts(p: Pdu): seq<byte>
    requires Int32(p.reqid) && Int32(p.first) && Int32(p.second)
  {
    IntTlv(p.reqid) + IntTlv(p.first) + IntTlv(p.second)
  }

  function PduBody(p: Pdu, version: int): seq<byte>
    requires Int32(p.reqid) && Int32(p.first) && Int32(p.second) && VarsOk(p.vars) && Supported(p.vars)
  {
    PduInts(p) + Wide(ASN_SEQUENCE_CONSTRUCTOR, VarsBytes(p.vars, version))
  }

  function MessageBody(m: Message): seq<byte>
    requires MessageOk(m) && Supported(m.pdu.vars)
  {
    IntTlv(m.version) + Tlv(ASN_OCTET_STR, m.community) + Wide(m.pdu.command, PduBody(m.pdu, m.version))
  }

  /** A message with every length true. */
  function MessageBytes(m: Message): seq<byte>
    requires MessageOk(m) && Supported(m.pdu.vars)
  {
    Wide(ASN_SEQUENCE_CONSTRUCTOR, MessageBody(m))
  }

  lemma {:induction false} VarsBytesSnoc(vars: seq<Var>, x: Var, version: int)
    requires VarsOk(vars + [x]) && Supported(vars + [x]) && VarsOk(vars) && Supported(vars) && VarOk(x) && !x.value.Other?
    ensures VarsBytes(vars + [x], version) == VarsBytes(vars, version) + Wide(ASN_SEQUENCE_CONSTRUCTOR, VarBody(x, version))
    decreases |vars|
  {
    hide Wide, VarBody, VarOk;
    var all := vars + [x];
    if vars == [] {
      assert all == [x] && all[1..] == [];
    } else {
      assert all[0] == vars[0] && all[1..] == vars[1..] + [x];
      VarsBytesSnoc(vars[1..], x, version);
    }
  }

  // ----- Encoding -----

  lemma SliceSame(a: seq<byte>, b: seq<byte>, lo: int, hi: int, from: nat, to: nat)
    requires Same(a, b, lo, hi) && from <= to <= |a| && (to <= lo || hi <= from)
    ensures b[from..to] == a[from..to]
  {
  }

  /** The header overwritten with the true length. */
  lemma Patched(d0: seq<byte>, d1: seq<byte>, d2: seq<byte>, at: nat, next: nat, tag: byte, body: seq<byte>)
    requires at + 4 <= next <= |d0| && Same(d0, d1, at, next) && d1[at + 4..next] == body
    requires Same(d1, d2, at, at + 4) && d2[at..at + 4] == WideHeader(tag, |body|)
    ensures d2[at..next] == Wide(tag, body) && Same(d0, d2, at, next)
  {
    SliceSame(d1, d2, at, at + 4, at + 4, next);
    assert d2[at..next] == d2[at..at + 4] + d2[at + 4..next];
  }

  /** The value of a variable. */
  method EncodeValue(data: array<byte>, at: nat, left: int, v: Value, version: int) returns (ok: bool, next: nat, rest: int)
    requires 0 <= left && at + left <= data.Length && ValueOk(v)
    modifies data
    ensures v.Other? ==> !ok && Same(old(data[..]), data[..], at, at + left)
    ensures !v.Other? ==> Built(data, at, left, ValueBytes(v, version), ok, next, rest)
  {
    match v
    case Integer(i) => ok, next, rest := BuildInt(data, at, left, ASN_INTEGER, i);
    case Unsigned(tag, u) => ok, next, rest := BuildUnsigned(data, at, left, tag, u);
    case Octets(tag, s) => ok, next, rest := BuildString(data, at, left, tag, s);
    case ObjectId(oid) => ok, next, rest := BuildOid(data, at, left, ASN_OBJECT_ID, oid);
    case Nothing(tag) =>
      ok, next, rest := BuildHeader(data, at, left, if version == SNMP_VERSION_1 && IsException(tag) then SMI_NOSUCHOBJECT else tag, 0, true);
      assert HeaderBytes(NothingTag(tag, version), 0, true) == Tlv(NothingTag(tag, version), []);
    case Other => ok, next, rest := false, at, left;
  }

  /** One variable: a header to be filled in, the name, the value. */
  method EncodeVar(data: array<byte>, at: nat, left: int, fake: int, x: Var, version: int) returns (ok: bool, next: nat, rest: int)
    requires 0 <= left && at + left <= data.Length && VarOk(x) && left <= fake
    modifies data
    ensures x.value.Other? ==> !ok && Same(old(data[..]), data[..], at, at + left)
    ensures !x.value.Other? ==> Built(data, at, left, Wide(ASN_SEQUENCE_CONSTRUCTOR, VarBody(x, version)), ok, next, rest)
  {
    hide Tlv, OidBytes, ValueBytes, Same;
    ghost var d0 := data[..];
    var start, r0;
    ok, start, r0 := BuildHeader(data, at, left, ASN_SEQUENCE_CONSTRUCTOR, fake, false);
    if !ok {
      return false, at, left;
    }
    ghost var d1 := data[..];
    var mid, r1;
    ok, mid, r1 := BuildOid(data, start, r0, ASN_OBJECT_ID, x.name);
    ghost var d2 := data[..];
    SameChain(d0, d1, d2, at, start, start, at + left);
    if !ok {
      return false, at, left;
    }
    assert d2[start..mid] == data[start..mid];
    ok, next, rest := EncodeValue(data, mid, r1, x.value, version);
    ghost var d3 := data[..];
    SameChain(d0, d2, d3, at, at + left, mid, at + left);
    if !ok {
      return false, at, left;
    }
    assert d3[mid..next] == data[mid..next];
    TwoParts(d1, d2, d3, start, mid, next, Tlv(ASN_OBJECT_ID, OidBytes(x.name)), ValueBytes(x.value, version));
    SameChain(d0, d1, d3, at, start, start, next);
    var patched, p, q := BuildHeader(data, at, fake, ASN_SEQUENCE_CONSTRUCTOR, next - start, false);
    assert patched;
    assert data[..][at..at + 4] == data[at..at + 4];
    Patched(d0, d3, data[..], at, next, ASN_SEQUENCE_CONSTRUCTOR, VarBody(x, version));
    assert data[at..next] == data[..][at..next];
    SameMore(d0, data[..], at, next, at + left);
  }

  lemma SameChain(d0: seq<byte>, d1: seq<byte>, d2: seq<byte>, at: nat, m: int, lo: int, hi: int)
    requires Same(d0, d1, at, m) && Same(d1, d2, lo, hi) && at <= lo && m <= hi
    ensures Same(d0, d2, at, hi)
  {
  }

  /** snmp_var_EncodeVarBind.  The count kept for overwriting headers never runs out. */
  method EncodeVars(data: array<byte>, at: nat, left: int, vars: seq<Var>, version: int) returns (ok: bool, next: nat, rest: int)
    requires 0 <= left && at + left <= data.Length && VarsOk(vars)
    modifies data
    ensures Supported(vars) ==> Built(data, at, left, VarsBytes(vars, version), ok, next, rest)
    ensures !Supported(vars) ==> !ok && Same(old(data[..]), data[..], at, at + left)
  {
    hide VarBody, Wide, VarOk;
    ghost var d0 := data[..];
    next, rest := at, left;
    var fake := left;
    var i := 0;
    assert vars[..0] == [];
    while i < |vars|
      invariant 0 <= i <= |vars| && VarsOk(vars[..i]) && Supported(vars[..i]) && rest <= fake
      invariant next == at + |VarsBytes(vars[..i], version)| && rest == left - |VarsBytes(vars[..i], version)| && 0 <= rest
      invariant data[at..next] == VarsBytes(vars[..i], version) && Same(d0, data[..], at, next)
    {
      ghost var d1 := data[..];
      assert vars[..i + 1] == vars[..i] + [vars[i]];
      var mid, r;
      ok, mid, r := EncodeVar(data, next, rest, fake, vars[i], version);
      if !vars[i].value.Other? {
        VarsBytesSnoc(vars[..i], vars[i], version);
        VarsPrefix(vars, i + 1, version);
      }
      SameChain(d0, d1, data[..], at, next, next, at + left);
      if !ok {
        return false, at, left;
      }
      assert data[..][next..mid] == data[next..mid] && d1[at..next] == VarsBytes(vars[..i], version);
      TwoParts(d0, d1, data[..], at, next, mid, VarsBytes(vars[..i], version), Wide(ASN_SEQUENCE_CONSTRUCTOR, VarBody(vars[i], version)));
      assert data[at..mid] == data[..][at..mid];
      WideSize(ASN_SEQUENCE_CONSTRUCTOR, VarBody(vars[i], version));
      next, rest, fake := mid, r, fake - 4;
      i := i + 1;
    }
    assert vars[..i] == vars;
    ok := true;
    SameMore(d0, data[..], at, next, at + left);
  }

  lemma WideSize(tag: byte, body: seq<byte>)
    ensures |Wide(tag, body)| == 4 + |body|
  {
  }

  /** The code of the first variables is no longer than that of all. */
  lemma {:induction false} VarsPrefix(vars: seq<Var>, k: nat, version: int)
    requires VarsOk(vars) && k <= |vars| && Supported(vars[..k])
    ensures VarsOk(vars[..k]) && (Supported(vars) ==> |VarsBytes(vars[..k], version)| <= |VarsBytes(vars, version)|)
    decreases |vars|
  {
    hide VarBody, Wide;
    if k > 0 && Supported(vars) {
      assert vars[..k][1..] == vars[1..][..k - 1] && vars[..k][0] == vars[0];
      VarsPrefix(vars[1..], k - 1, version);
    }
  }

  /** Three integers in a row: the fixed part of both kinds of PDU. */
  method EncodePdu(data: array<byte>, at: nat, left: int, p: Pdu) returns (ok: bool, next: nat, rest: int)
    requires 0 <= left && at + left <= data.Length && Int32(p.reqid) && Int32(p.first) && Int32(p.second)
    modifies data
    ensures Built(data, at, left, PduInts(p), ok, next, rest)
  {
    hide Tlv, IntBytes, Same;
    ghost var d0 := data[..];
    var n1, r1;
    ok, n1, r1 := BuildInt(data, at, left, ASN_INTEGER, p.reqid);
    if !ok {
      return false, at, left;
    }
    ghost var d1 := data[..];
    assert d1[at..n1] == data[at..n1];
    var n2, r2;
    ok, n2, r2 := BuildInt(data, n1, r1, ASN_INTEGER, p.first);
    ghost var d2 := data[..];
    SameChain(d0, d1, d2, at, n1, n1, at + left);
    if !ok {
      return false, at, left;
    }
    assert d2[n1..n2] == data[n1..n2];
    TwoParts(d0, d1, d2, at, n1, n2, IntTlv(p.reqid), IntTlv(p.first));
    ok, next, rest := BuildInt(data, n2, r2, ASN_INTEGER, p.second);
    ghost var d3 := data[..];
    SameChain(d0, d2, d3, at, n2, n2, at + left);
    if !ok {
      return false, at, left;
    }
    assert d3[n2..next] == data[n2..next];
    TwoParts(d0, d2, d3, at, n2, next, IntTlv(p.reqid) + IntTlv(p.first), IntTlv(p.second));
    assert data[at..next] == d3[at..next];
  }

  function Front(m: Message): seq<byte>
    requires Int32(m.version)
  {
    IntTlv(m.version) + Tlv(ASN_OCTET_STR, m.community)
  }

  /** Header, version and community. */
  method EncodeStart(data: array<byte>, left: int, m: Message) returns (ok: bool, next: nat, rest: int, ghost h: seq<byte>)
    requires 0 <= left <= data.Length && Int32(m.version)
    modifies data
    ensures |h| == 4 && Built(data, 0, left, h + Front(m), ok, next, rest)
  {
    hide Tlv, IntBytes, Same;
    h := WideHeader(ASN_SEQUENCE_CONSTRUCTOR, left);
    ghost var d0 := data[..];
    var n1, r1;
    ok, n1, r1 := BuildHeader(data, 0, left, ASN_SEQUENCE_CONSTRUCTOR, left, false);
    if !ok {
      return false, 0, left, h;
    }
    ghost var d1 := data[..];
    assert d1[0..n1] == data[0..n1];
    var n2, r2;
    ok, n2, r2 := BuildInt(data, n1, r1, ASN_INTEGER, m.version);
    ghost var d2 := data[..];
    SameChain(d0, d1, d2, 0, n1, n1, left);
    if !ok {
      return false, 0, left, h;
    }
    assert d2[n1..n2] == data[n1..n2];
    TwoParts(d0, d1, d2, 0, n1, n2, h, IntTlv(m.version));
    ok, next, rest := BuildString(data, n2, r2, ASN_OCTET_STR, m.community);
    ghost var d3 := data[..];
    SameChain(d0, d2, d3, 0, n2, n2, left);
    if !ok {
      return false, 0, left, h;
    }
    assert d3[n2..next] == data[n2..next];
    TwoParts(d0, d2, d3, 0, n2, next, h + IntTlv(m.version), Tlv(ASN_OCTET_STR, m.community));
    assert h + IntTlv(m.version) + Tlv(ASN_OCTET_STR, m.community) == h + Front(m);
    assert data[0..next] == d3[0..next];
  }

  /** The PDU's header, its integers and the header of the variables. */
  method EncodeMiddle(data: array<byte>, at: nat, left: int, p: Pdu)
    returns (ok: bool, varAt: nat, next: nat, rest: int, ghost h1: seq<byte>, ghost h2: seq<byte>)
    requires 0 <= left && at + left <= data.Length && Int32(p.reqid) && Int32(p.first) && Int32(p.second)
    modifies data
    ensures |h1| == |h2| == 4 && Built(data, at, left, h1 + PduInts(p) + h2, ok, next, rest)
    ensures ok ==> varAt == at + 4 + |PduInts(p)|
  {
    hide Same, PduInts;
    h1, h2 := WideHeader(ASN_SEQUENCE_CONSTRUCTOR, left), WideHeader(ASN_SEQUENCE_CONSTRUCTOR, 1024);
    varAt := 0;
    ghost var d0 := data[..];
    var n1, r1;
    ok, n1, r1 := BuildHeader(data, at, left, ASN_SEQUENCE_CONSTRUCTOR, left, false);
    if !ok {
      return false, 0, at, left, h1, h2;
    }
    ghost var d1 := data[..];
    assert d1[at..n1] == data[at..n1];
    var r2;
    ok, varAt, r2 := EncodePdu(data, n1, r1, p);
    ghost var d2 := data[..];
    SameChain(d0, d1, d2, at, n1, n1, at + left);
    if !ok {
      return false, 0, at, left, h1, h2;
    }
    assert d2[n1..varAt] == data[n1..varAt];
    TwoParts(d0, d1, d2, at, n1, varAt, h1, PduInts(p));
    ok, next, rest := BuildHeader(data, varAt, r2, ASN_SEQUENCE_CONSTRUCTOR, 1024, false);
    ghost var d3 := data[..];
    SameChain(d0, d2, d3, at, varAt, varAt, at + left);
    if !ok {
      return false, 0, at, left, h1, h2;
    }
    assert d3[varAt..next] == data[varAt..next];
    TwoParts(d0, d2, d3, at, varAt, next, h1 + PduInts(p), h2);
    assert data[at..next] == d3[at..next];
  }

  lemma Replaced(d: seq<byte>, d': seq<byte>, p: nat, next: nat, a: seq<byte>, h: seq<byte>, b: seq<byte>, h': seq<byte>)
    requires next <= |d| && d[0..next] == a + h + b && |a| == p && |h| == |h'| == 4 && Same(d, d', p, p + 4) && d'[p..p + 4] == h'
    ensures d'[0..next] == a + h' + b
  {
    SliceSame(d, d', p, p + 4, 0, p);
    SliceSame(d, d', p, p + 4, p + 4, next);
    assert d[0..p] == d[0..next][..p] && d[p + 4..next] == d[0..next][p + 4..];
    assert d'[0..next] == d'[0..p] + d'[p..p + 4] + d'[p + 4..next];
  }

  lemma MessageShape(m: Message)
    requires MessageOk(m) && Supported(m.pdu.vars)
    ensures var f, i, v := Front(m), PduInts(m.pdu), VarsBytes(m.pdu.vars, m.version);
      && |MessageBytes(m)| == 12 + |f| + |i| + |v|
      && MessageBytes(m) == WideHeader(ASN_SEQUENCE_CONSTRUCTOR, 8 + |f| + |i| + |v|) + f
           + WideHeader(m.pdu.command, 4 + |i| + |v|) + i + WideHeader(ASN_SEQUENCE_CONSTRUCTOR, |v|) + v
  {
    hide IntTlv, Tlv, PduInts, VarsBytes, WideHeader;
  }

  lemma Regroup(h: seq<byte>, f: seq<byte>, h1: seq<byte>, i: seq<byte>, h2: seq<byte>, v: seq<byte>)
    ensures h + f + h1 + i + h2 + v == (h + f) + h1 + (i + h2 + v)
    ensures h + f + h1 + i + h2 + v == [] + h + (f + h1 + i + h2 + v)
    ensures h + f + h1 + i + h2 + v == (h + f + h1 + i) + h2 + v
  {
  }

  /** The three headers are overwritten in turn. */
  method FixHeaders(data: array<byte>, pduAt: nat, varAt: nat, next: nat, command: byte,
                    ghost h: seq<byte>, ghost f: seq<byte>, ghost h1: seq<byte>, ghost i: seq<byte>, ghost h2: seq<byte>, ghost v: seq<byte>)
    requires |h| == |h1| == |h2| == 4 && next <= data.Length && data[0..next] == h + f + h1 + i + h2 + v
    requires pduAt == 4 + |f| && varAt == pduAt + 4 + |i| && next == varAt + 4 + |v|
    modifies data
    ensures Same(old(data[..]), data[..], 0, next)
    ensures data[0..next] == WideHeader(ASN_SEQUENCE_CONSTRUCTOR, 8 + |f| + |i| + |v|) + f
              + WideHeader(command, 4 + |i| + |v|) + i + WideHeader(ASN_SEQUENCE_CONSTRUCTOR, |v|) + v
  {
    hide Same, WideHeader;
    var fake := 1024;
    ghost var d0 := data[..];
    var ok, p, q := BuildHeader(data, pduAt, fake, command, next - (pduAt + 4), false);
    ghost var d1, H1 := data[..], WideHeader(command, 4 + |i| + |v|);
    Regroup(h, f, h1, i, h2, v);
    assert d1[pduAt..pduAt + 4] == data[pduAt..pduAt + 4];
    Replaced(d0, d1, pduAt, next, h + f, h1, i + h2 + v, H1);
    ok, p, q := BuildHeader(data, 0, fake - 4, ASN_SEQUENCE_CONSTRUCTOR, next - 4, false);
    ghost var d2, H := data[..], WideHeader(ASN_SEQUENCE_CONSTRUCTOR, 8 + |f| + |i| + |v|);
    Regroup(h, f, H1, i, h2, v);
    assert d2[0..4] == data[0..4];
    Replaced(d1, d2, 0, next, [], h, f + H1 + i + h2 + v, H);
    ok, p, q := BuildHeader(data, varAt, fake - 8, ASN_SEQUENCE_CONSTRUCTOR, next - (varAt + 4), false);
    ghost var d3, H2 := data[..], WideHeader(ASN_SEQUENCE_CONSTRUCTOR, |v|);
    Regroup(H, f, H1, i, h2, v);
    assert d3[varAt..varAt + 4] == data[varAt..varAt + 4];
    Replaced(d2, d3, varAt, next, H + f + H1 + i, h2, v, H2);
    SameInside(d0, d1, pduAt, pduAt + 4, next);
    SameInside(d1, d2, 0, 4, next);
    SameInside(d2, d3, varAt, varAt + 4, next);
    SameChain(d0, d1, d2, 0, next, 0, next);
    SameChain(d0, d2, d3, 0, next, 0, next);
    assert data[0..next] == d3[0..next];
  }

  lemma SameInside(a: seq<byte>, b: seq<byte>, lo: nat, hi: int, next: int)
    requires Same(a, b, lo, hi) && hi <= next
    ensures Same(a, b, 0, next)
  {
  }

  /**
   snmp_msg_Encode: the message is built if it fits and all its types are known, and then
   every header gives the true length of what follows it.
   */
  method EncodeMessage(data: array<byte>, left: int, m: Message) returns (ok: bool, length: nat)
    requires 0 <= left <= data.Length && MessageOk(m)
    modifies data
    ensures Same(old(data[..]), data[..], 0, left)
    ensures ok <==> Supported(m.pdu.vars) && |MessageBytes(m)| <= left
    ensures ok ==> length == |MessageBytes(m)| && data[..length] == MessageBytes(m)
  {
    hide Same, Front, PduInts, VarsBytes, MessageBytes, WideHeader;
    if Supported(m.pdu.vars) {
      MessageShape(m);
    }
    ghost var d0 := data[..];
    var n1, r1;
    ghost var h;
    ok, n1, r1, h := EncodeStart(data, left, m);
    if !ok {
      return false, 0;
    }
    ghost var d1 := data[..];
    assert d1[0..n1] == data[0..n1];
    var varAt, n2, r2;
    ghost var h1, h2;
    ok, varAt, n2, r2, h1, h2 := EncodeMiddle(data, n1, r1, m.pdu);
    ghost var d2 := data[..];
    SameChain(d0, d1, d2, 0, n1, n1, left);
    if !ok {
      return false, 0;
    }
    assert d2[n1..n2] == data[n1..n2];
    TwoParts(d0, d1, d2, 0, n1, n2, h + Front(m), h1 + PduInts(m.pdu) + h2);
    var r3;
    ok, length, r3 := EncodeVars(data, n2, r2, m.pdu.vars, m.version);
    ghost var d3 := data[..];
    SameChain(d0, d2, d3, 0, n2, n2, left);
    if !ok {
      return false, 0;
    }
    ghost var v := VarsBytes(m.pdu.vars, m.version);
    assert d3[n2..length] == data[n2..length];
    TwoParts(d0, d2, d3, 0, n2, length, h + Front(m) + (h1 + PduInts(m.pdu) + h2), v);
    assert h + Front(m) + (h1 + PduInts(m.pdu) + h2) + v == h + Front(m) + h1 + PduInts(m.pdu) + h2 + v;
    assert data[0..length] == d3[0..length];
    FixHeaders(data, n1, varAt, length, m.pdu.command, h, Front(m), h1, PduInts(m.pdu), h2, v);
    SameChain(d0, d3, data[..], 0, length, 0, length);
    SameMore(d0, data[..], 0, length, left);
    assert data[..length] == data[0..length];
  }
}
