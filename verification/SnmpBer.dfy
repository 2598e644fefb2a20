/**
 What a packet says.  `Spells` is the grammar: the Basic Encoding Rules with any definite length,
 within the limits of asn_parse_header, every object used up exactly.  `MessageReads` is what the
 parsers of snmplib accept, which is more; it is the grammar exactly where it is tight.
 */
module SnmpBer {
  import opened Basics
  import opened SnmpAsn
  import opened SnmpOid
  import opened SnmpMsg

  // ----- The grammar -----

  /** An object with this tag and contents from `start` to `end`. */
  ghost predicate Element(data: seq<byte>, at: int, tag: byte, start: int, end: int) {
    ObjectAt(data, at, tag, start, end - start) && 0 <= start <= end <= |data|
  }

  /** The same where the parsers look at the header first. */
  ghost predicate Enclosed(data: seq<byte>, at: int, tag: byte, start: int, end: int) {
    Element(data, at, tag, start, end) && tag % 32 != 31 && end - start <= MAX_CONTENTS
  }

  ghost predicate SpeltInt(data: seq<byte>, at: int, end: int, tag: byte, v: int) {
    exists start :: Element(data, at, tag, start, end) && 1 <= end - start <= 4 && v == TwosComplement(data[start..end])
  }

  ghost predicate SpeltUnsigned(data: seq<byte>, at: int, end: int, tag: byte, v: int) {
    exists start :: Element(data, at, tag, start, end) && 1 <= end - start <= 5 &&
      (end - start == 5 ==> data[start] == 0) && v == TwosComplement(data[start..end]) % WORD
  }

  ghost predicate SpeltString(data: seq<byte>, at: int, end: int, tag: byte, s: seq<byte>) {
    exists start :: Element(data, at, tag, start, end) && s == data[start..end]
  }

  ghost predicate SpeltIds(data: seq<byte>, start: int, end: int, ids: seq<int>, cuts: seq<int>) {
    |cuts| == |ids| + 1 && cuts[0] == start && cuts[|ids|] == end &&
    forall i :: 0 <= i < |ids| ==> SubidAt(data, cuts[i], ids[i], cuts[i + 1])
  }

  /** The first number is forty times the first sub-identifier and the second. */
  ghost predicate SpeltOid(data: seq<byte>, at: int, end: int, tag: byte, oid: seq<int>) {
    exists start, ids, cuts :: Element(data, at, tag, start, end) && SpeltIds(data, start, end, ids, cuts) &&
      ids != [] && ids[0] / 40 < 256 && oid == [ids[0] / 40, ids[0] % 40] + ids[1..]
  }

  ghost predicate SpeltValue(data: seq<byte>, at: int, end: int, v: Value) {
    exists tag, start :: Enclosed(data, at, tag, start, end) && SpeltAs(data, at, tag, start, end, v)
  }

  ghost predicate SpeltAs(data: seq<byte>, at: int, tag: byte, start: int, end: int, v: Value) {
    match v
    case Integer(i) => tag == ASN_INTEGER && SpeltInt(data, at, end, tag, i)
    case Unsigned(u, x) => u == tag && IsUnsigned(tag) && SpeltUnsigned(data, at, end, tag, x)
    case Octets(o, s) => o == tag && IsOctets(tag) && SpeltString(data, at, end, tag, s)
    case ObjectId(oid) => tag == ASN_OBJECT_ID && SpeltOid(data, at, end, tag, oid)
    case Nothing(k) => k == tag && (tag == ASN_NULL || IsException(tag)) && start == end
    case Other => false
  }

  ghost predicate SpeltVar(data: seq<byte>, at: int, end: int, x: Var) {
    exists start, mid :: Enclosed(data, at, ASN_SEQUENCE_CONSTRUCTOR, start, end) &&
      SpeltOid(data, start, mid, ASN_OBJECT_ID, x.name) && SpeltValue(data, mid, end, x.value)
  }

  ghost predicate SpeltVars(data: seq<byte>, at: int, end: int, vars: seq<Var>, cuts: seq<nat>) {
    |cuts| == |vars| + 1 && cuts[0] == at && cuts[|vars|] == end &&
    forall i :: 0 <= i < |vars| ==> SpeltVar(data, cuts[i], cuts[i + 1], vars[i])
  }

  ghost predicate SpeltList(data: seq<byte>, at: int, end: int, vars: seq<Var>) {
    exists start, cuts :: Enclosed(data, at, ASN_SEQUENCE_CONSTRUCTOR, start, end) && SpeltVars(data, start, end, vars, cuts)
  }

  /** The tags of these integers are not looked at. */
  ghost predicate SpeltInts(data: seq<byte>, at: int, end: int, a: int, b: int, c: int) {
    exists tag, tag', tag'', p, q :: SpeltInt(data, at, p, tag, a) && SpeltInt(data, p, q, tag', b) && SpeltInt(data, q, end, tag'', c)
  }

  ghost predicate SpeltPdu(data: seq<byte>, at: int, end: int, p: Pdu) {
    exists start, mid :: Enclosed(data, at, p.command, start, end) &&
      SpeltInts(data, start, mid, p.reqid, p.first, p.second) && SpeltList(data, mid, end, p.vars)
  }

  ghost predicate Spells(packet: seq<byte>, m: Message) {
    exists start, tag, p, tag', q :: Enclosed(packet, 0, ASN_SEQUENCE_CONSTRUCTOR, start, |packet|) &&
      SpeltInt(packet, start, p, tag, m.version) && SpeltString(packet, p, q, tag', m.community) && SpeltPdu(packet, q, |packet|, m.pdu)
  }

  // ----- What the parsers accept -----

  ghost predicate ValueReads(data: seq<byte>, at: int, left: int, v: Value, next: nat, tight: bool) {
    exists tag, start, n :: HeaderAt(data, at, left, tag, start, n) && ReadsAs(data, at, left, tag, start, v, next, tight)
  }

  /** The contents of an object without a value are not skipped. */
  ghost predicate ReadsAs(data: seq<byte>, at: int, left: int, tag: byte, start: int, v: Value, next: nat, tight: bool) {
    match v
    case Integer(i) => tag == ASN_INTEGER &&
      exists t, rest :: IntReads(data, at, left, Parsed(tag, i, next, rest), t) && tight == (t && rest == 0)
    case Unsigned(u, x) => u == tag && IsUnsigned(tag) &&
      exists t, rest :: UnsignedReads(data, at, left, Parsed(tag, x, next, rest), t) && tight == (t && rest == 0)
    case Octets(o, s) => o == tag && IsOctets(tag) &&
      exists rest :: StringReads(data, at, left, left, Parsed(tag, s, next, rest)) && tight == (rest == 0)
    case ObjectId(oid) => tag == ASN_OBJECT_ID &&
      exists t, rest :: OidReads(data, at, left, MAX_NAME_LEN, Parsed(tag, oid, next, rest), t) && tight == (t && rest == 0)
    case Nothing(k) => k == tag && (tag == ASN_NULL || IsException(tag)) && next == start && tight == (start == at + left)
    case Other => false
  }

  /** The next variable starts where the value ended, but the length of this one counts. */
  ghost predicate VarReads(data: seq<byte>, at: int, all: int, x: Var, next: nat, rest: int, tight: bool) {
    exists start, n, o: Parsed<seq<int>>, t, u ::
      HeaderAt(data, at, all, ASN_SEQUENCE_CONSTRUCTOR, start, n) && rest == all - (n + (start - at)) &&
      OidReads(data, start, n, MAX_NAME_LEN, o, t) && o.tag == ASN_OBJECT_ID && o.value == x.name &&
      ValueReads(data, o.next, o.rest, x.value, next, u) && tight == (t && u)
  }

  ghost predicate VarsSoFar(data: seq<byte>, at: int, all: int, vars: seq<Var>, cuts: seq<nat>, alls: seq<int>, tights: seq<bool>) {
    |cuts| == |vars| + 1 && |alls| == |vars| + 1 && |tights| == |vars| && cuts[0] == at && alls[0] == all &&
    forall i :: 0 <= i < |vars| ==> VarReads(data, cuts[i], alls[i], vars[i], cuts[i + 1], alls[i + 1], tights[i])
  }

  predicate AllTight(tights: seq<bool>) {
    forall i :: 0 <= i < |tights| ==> tights[i]
  }

  ghost predicate ListReads(data: seq<byte>, at: int, left: int, vars: seq<Var>, tight: bool) {
    exists start, n, cuts, alls, tights ::
      HeaderAt(data, at, left, ASN_SEQUENCE_CONSTRUCTOR, start, n) && VarsSoFar(data, start, n, vars, cuts, alls, tights) &&
      alls[|vars|] == 0 && tight == (AllTight(tights) && start + n == at + left)
  }

  ghost predicate IntsRead(data: seq<byte>, at: int, left: int, a: int, b: int, c: int, next: nat, rest: int, tight: bool) {
    exists x: Parsed<int>, y: Parsed<int>, z: Parsed<int>, t, u, w ::
      IntReads(data, at, left, x, t) && IntReads(data, x.next, x.rest, y, u) && IntReads(data, y.next, y.rest, z, w) &&
      x.value == a && y.value == b && z.value == c && z.next == next && z.rest == rest && tight == (t && u && w)
  }

  ghost predicate PduReads(data: seq<byte>, at: int, left: int, p: Pdu, tight: bool) {
    exists start, n, next: nat, rest, t, u ::
      HeaderAt(data, at, left, p.command, start, n) && IntsRead(data, start, n, p.reqid, p.first, p.second, next, rest, t) &&
      ListReads(data, next, rest, p.vars, u) && tight == (t && u && start + n == at + left)
  }

  /** A message as snmp_msg_Decode reads it, with room for a community of `room` bytes. */
  ghost predicate MessageReads(packet: seq<byte>, room: int, m: Message, tight: bool) {
    exists start, n, v: Parsed<int>, s: Parsed<seq<byte>>, t, u ::
      HeaderAt(packet, 0, |packet|, ASN_SEQUENCE_CONSTRUCTOR, start, n) && IntReads(packet, start, n, v, t) && v.value == m.version &&
      StringReads(packet, v.next, v.rest, room, s) && s.value == m.community && PduReads(packet, s.next, s.rest, m.pdu, u) &&
      tight == (t && u && start + n == |packet|)
  }

  // ----- Tight readings are the grammar -----

  lemma ElementPlace(data: seq<byte>, at: int, tag: byte, start: int, end: int)
    requires Element(data, at, tag, start, end)
    ensures 0 <= at && at + 2 <= start <= end <= |data|
  {
    ObjectPlace(data, at, tag, start, end - start);
  }

  lemma ObjectSame(data: seq<byte>, at: int, tag: byte, start: int, n: int, tag': byte, start': int, n': int)
    requires ObjectAt(data, at, tag, start, n) && ObjectAt(data, at, tag', start', n')
    ensures tag == tag' && start == start' && n == n'
  {
    ObjectPlace(data, at, tag, start, n);
    ObjectPlace(data, at, tag', start', n');
  }

  lemma IntTight(data: seq<byte>, at: int, left: int, p: Parsed<int>)
    ensures IntReads(data, at, left, p, true) <==> SpeltInt(data, at, p.next, p.tag, p.value) && p.rest == left - (p.next - at) && p.rest >= 0
  {
    hide ObjectAt, TwosComplement;
    if IntReads(data, at, left, p, true) {
      var start, n :| ObjectAt(data, at, p.tag, start, n) && IntFits(data, at, left, start, n) && n > 0 &&
        p == Parsed(p.tag, IntValue(data, start, n), start + n, left - (n + (start - at)));
      assert Element(data, at, p.tag, start, p.next);
    }
    if SpeltInt(data, at, p.next, p.tag, p.value) && p.rest == left - (p.next - at) && p.rest >= 0 {
      var start :| Element(data, at, p.tag, start, p.next) && 1 <= p.next - start <= 4 && p.value == TwosComplement(data[start..p.next]);
      assert IntFits(data, at, left, start, p.next - start) && IntValue(data, start, p.next - start) == p.value;
    }
  }

  lemma UnsignedTight(data: seq<byte>, at: int, left: int, p: Parsed<int>)
    ensures UnsignedReads(data, at, left, p, true) <==>
      SpeltUnsigned(data, at, p.next, p.tag, p.value) && p.rest == left - (p.next - at) && p.rest >= 0
  {
    hide ObjectAt, TwosComplement;
    if UnsignedReads(data, at, left, p, true) {
      var start, n :| ObjectAt(data, at, p.tag, start, n) && UnsignedFits(data, at, left, start, n) && n > 0 &&
        p == Parsed(p.tag, IntValue(data, start, n) % WORD, start + n, left - (n + (start - at)));
      assert Element(data, at, p.tag, start, p.next);
    }
    if SpeltUnsigned(data, at, p.next, p.tag, p.value) && p.rest == left - (p.next - at) && p.rest >= 0 {
      var start :| Element(data, at, p.tag, start, p.next) && 1 <= p.next - start <= 5 &&
        (p.next - start == 5 ==> data[start] == 0) && p.value == TwosComplement(data[start..p.next]) % WORD;
      assert UnsignedFits(data, at, left, start, p.next - start) && IntValue(data, start, p.next - start) % WORD == p.value;
    }
  }

  lemma StringTight(data: seq<byte>, at: int, left: int, room: int, p: Parsed<seq<byte>>)
    ensures StringReads(data, at, left, room, p) <==>
      SpeltString(data, at, p.next, p.tag, p.value) && p.rest == left - (p.next - at) && p.rest >= 0 && |p.value| <= room
  {
    hide ObjectAt;
    if StringReads(data, at, left, room, p) {
      var start, n :| ObjectAt(data, at, p.tag, start, n) && n + (start - at) <= left && 0 <= n <= room && 0 <= start && start + n <= |data| &&
        p == Parsed(p.tag, data[start..start + n], start + n, left - (n + (start - at)));
      assert Element(data, at, p.tag, start, p.next);
    }
    if SpeltString(data, at, p.next, p.tag, p.value) && p.rest == left - (p.next - at) && p.rest >= 0 && |p.value| <= room {
      var start :| Element(data, at, p.tag, start, p.next) && p.value == data[start..p.next];
      var n := p.next - start;
      assert ObjectAt(data, at, p.tag, start, n) && data[start..start + n] == p.value;
    }
  }

  lemma {:induction false} CutsRise(data: seq<byte>, start: int, end: int, ids: seq<int>, cuts: seq<int>, i: nat)
    requires SpeltIds(data, start, end, ids, cuts) && i <= |ids|
    ensures cuts[i] <= end && (i < |ids| ==> cuts[i] < end)
    decreases |ids| - i
  {
    if i < |ids| {
      CutsRise(data, start, end, ids, cuts, i + 1);
      SubidPlace(data, cuts[i], ids[i], cuts[i + 1]);
    }
  }

  lemma ExpandedAs(ids: seq<int>)
    requires ids != [] && 0 <= ids[0] / 40 < 256
    ensures Expanded(ids) == [ids[0] / 40, ids[0] % 40] + ids[1..]
  {
    assert (ids[0] - ids[0] % 40) / 40 == ids[0] / 40;
  }

  lemma OidIsTight(data: seq<byte>, at: int, left: int, room: int, p: Parsed<seq<int>>)
    ensures OidReads(data, at, left, room, p, true) <==>
      SpeltOid(data, at, p.next, p.tag, p.value) && p.rest == left - (p.next - at) && p.rest >= 0 && |p.value| <= room
  {
    if OidReads(data, at, left, room, p, true) {
      OidReadsSpelt(data, at, left, room, p);
    }
    if SpeltOid(data, at, p.next, p.tag, p.value) && p.rest == left - (p.next - at) && p.rest >= 0 && |p.value| <= room {
      OidSpeltReads(data, at, left, room, p);
    }
  }

  lemma OidReadsSpelt(data: seq<byte>, at: int, left: int, room: int, p: Parsed<seq<int>>)
    requires OidReads(data, at, left, room, p, true)
    ensures SpeltOid(data, at, p.next, p.tag, p.value) && p.rest == left - (p.next - at) && p.rest >= 0 && |p.value| <= room
  {
    hide ObjectAt, SubidAt, Expanded;
    var start, n, ids, cuts :| ObjectAt(data, at, p.tag, start, n) && n + (start - at) <= left && IdsRead(data, start, n, room - 1, ids, cuts) &&
      p.value == Expanded(ids) && p.next == cuts[|ids|] && p.rest == left - (n + (start - at)) && OidTight(ids, cuts, start + n);
    ExpandedAs(ids);
    ObjectPlace(data, at, p.tag, start, n);
    SubidPlace(data, cuts[|ids| - 1], ids[|ids| - 1], cuts[|ids|]);
    assert Element(data, at, p.tag, start, p.next) && SpeltIds(data, start, p.next, ids, cuts);
  }

  lemma OidSpeltReads(data: seq<byte>, at: int, left: int, room: int, p: Parsed<seq<int>>)
    requires SpeltOid(data, at, p.next, p.tag, p.value) && p.rest == left - (p.next - at) && p.rest >= 0 && |p.value| <= room
    ensures OidReads(data, at, left, room, p, true)
  {
    hide ObjectAt, SubidAt, Expanded;
    var start, ids, cuts :| Element(data, at, p.tag, start, p.next) && SpeltIds(data, start, p.next, ids, cuts) &&
      ids != [] && ids[0] / 40 < 256 && p.value == [ids[0] / 40, ids[0] % 40] + ids[1..];
    SubidPlace(data, cuts[0], ids[0], cuts[1]);
    ExpandedAs(ids);
    forall i | 0 <= i < |ids| ensures cuts[i] < p.next {
      CutsRise(data, start, p.next, ids, cuts, i);
    }
    OidReadsBy(data, at, left, room, start, p.next - start, ids, cuts, p);
  }

  predicate ValueRoom(v: Value) {
    v.ObjectId? ==> |v.oid| <= MAX_NAME_LEN
  }

  predicate VarRoom(x: Var) {
    |x.name| <= MAX_NAME_LEN && ValueRoom(x.value)
  }

  predicate VarsRoom(vars: seq<Var>) {
    forall i :: 0 <= i < |vars| ==> VarRoom(vars[i])
  }

  lemma ValueTight(data: seq<byte>, at: int, left: int, v: Value, next: nat)
    ensures ValueReads(data, at, left, v, next, true) <==> next == at + left && SpeltValue(data, at, next, v) && ValueRoom(v)
  {
    hide HeaderAt, ReadsAs, Enclosed, SpeltAs;
    if ValueReads(data, at, left, v, next, true) {
      var tag, start, n :| HeaderAt(data, at, left, tag, start, n) && ReadsAs(data, at, left, tag, start, v, next, true);
      ReadsAsSpelt(data, at, left, tag, start, n, v, next);
    }
    if next == at + left && SpeltValue(data, at, next, v) && ValueRoom(v) {
      var tag, start :| Enclosed(data, at, tag, start, next) && SpeltAs(data, at, tag, start, next, v);
      SpeltReadsAs(data, at, left, tag, start, v, next);
    }
  }

  lemma ReadsAsSpelt(data: seq<byte>, at: int, left: int, tag: byte, start: int, n: int, v: Value, next: nat)
    requires HeaderAt(data, at, left, tag, start, n) && ReadsAs(data, at, left, tag, start, v, next, true)
    ensures next == at + left && Enclosed(data, at, tag, start, next) && SpeltAs(data, at, tag, start, next, v) && ValueRoom(v)
  {
    hide ObjectAt, IntReads, UnsignedReads, StringReads, OidReads, SpeltInt, SpeltUnsigned, SpeltString, SpeltOid;
    ObjectPlace(data, at, tag, start, n);
    match v
    case Integer(i) =>
      IntTight(data, at, left, Parsed(tag, i, next, 0));
      IntEnd(data, at, next, tag, i, start, n);
    case Unsigned(_, x) =>
      UnsignedTight(data, at, left, Parsed(tag, x, next, 0));
      UnsignedEnd(data, at, next, tag, x, start, n);
    case Octets(_, s) =>
      StringTight(data, at, left, left, Parsed(tag, s, next, 0));
      StringEnd(data, at, next, tag, s, start, n);
    case ObjectId(oid) =>
      OidIsTight(data, at, left, MAX_NAME_LEN, Parsed(tag, oid, next, 0));
      OidEnd(data, at, next, tag, oid, start, n);
    case Nothing(_) =>
  }

  lemma IntEnd(data: seq<byte>, at: int, end: int, tag: byte, v: int, start: int, n: int)
    requires SpeltInt(data, at, end, tag, v) && ObjectAt(data, at, tag, start, n)
    ensures Element(data, at, tag, start, end) && end == start + n
  {
    hide ObjectAt, TwosComplement;
    var s :| Element(data, at, tag, s, end) && 1 <= end - s <= 4 && v == TwosComplement(data[s..end]);
    ObjectSame(data, at, tag, start, n, tag, s, end - s);
  }

  lemma UnsignedEnd(data: seq<byte>, at: int, end: int, tag: byte, v: int, start: int, n: int)
    requires SpeltUnsigned(data, at, end, tag, v) && ObjectAt(data, at, tag, start, n)
    ensures Element(data, at, tag, start, end) && end == start + n
  {
    hide ObjectAt, TwosComplement;
    var s :| Element(data, at, tag, s, end) && 1 <= end - s <= 5 && (end - s == 5 ==> data[s] == 0) && v == TwosComplement(data[s..end]) % WORD;
    ObjectSame(data, at, tag, start, n, tag, s, end - s);
  }

  lemma StringEnd(data: seq<byte>, at: int, end: int, tag: byte, v: seq<byte>, start: int, n: int)
    requires SpeltString(data, at, end, tag, v) && ObjectAt(data, at, tag, start, n)
    ensures Element(data, at, tag, start, end) && end == start + n
  {
    hide ObjectAt;
    var s :| Element(data, at, tag, s, end) && v == data[s..end];
    ObjectSame(data, at, tag, start, n, tag, s, end - s);
  }

  lemma OidEnd(data: seq<byte>, at: int, end: int, tag: byte, oid: seq<int>, start: int, n: int)
    requires SpeltOid(data, at, end, tag, oid) && ObjectAt(data, at, tag, start, n)
    ensures Element(data, at, tag, start, end) && end == start + n
  {
    hide ObjectAt, SpeltIds;
    var s, ids, cuts :| Element(data, at, tag, s, end) && SpeltIds(data, s, end, ids, cuts) &&
      ids != [] && ids[0] / 40 < 256 && oid == [ids[0] / 40, ids[0] % 40] + ids[1..];
    ObjectSame(data, at, tag, start, n, tag, s, end - s);
  }

  lemma SpeltReadsAs(data: seq<byte>, at: int, left: int, tag: byte, start: int, v: Value, next: nat)
    requires next == at + left && Enclosed(data, at, tag, start, next) && SpeltAs(data, at, tag, start, next, v) && ValueRoom(v)
    ensures HeaderAt(data, at, left, tag, start, next - start) && ReadsAs(data, at, left, tag, start, v, next, true)
  {
    hide ObjectAt, IntReads, UnsignedReads, StringReads, OidReads, SpeltInt, SpeltUnsigned, SpeltString, SpeltOid;
    ElementPlace(data, at, tag, start, next);
    match v
    case Integer(i) => IntTight(data, at, left, Parsed(tag, i, next, 0));
    case Unsigned(_, x) => UnsignedTight(data, at, left, Parsed(tag, x, next, 0));
    case Octets(_, s) =>
      StringTight(data, at, left, left, Parsed(tag, s, next, 0));
      StringShort(data, at, next, tag, s);
    case ObjectId(oid) => OidIsTight(data, at, left, MAX_NAME_LEN, Parsed(tag, oid, next, 0));
    case Nothing(_) =>
  }

  lemma StringShort(data: seq<byte>, at: int, end: int, tag: byte, s: seq<byte>)
    requires SpeltString(data, at, end, tag, s)
    ensures |s| <= end - at
  {
    var start :| Element(data, at, tag, start, end) && s == data[start..end];
    ElementPlace(data, at, tag, start, end);
  }

  lemma OidSpan(data: seq<byte>, at: int, end: int, tag: byte, oid: seq<int>)
    requires SpeltOid(data, at, end, tag, oid)
    ensures 0 <= at < end <= |data|
  {
    hide SpeltIds;
    var start, ids, cuts :| Element(data, at, tag, start, end) && SpeltIds(data, start, end, ids, cuts) &&
      ids != [] && ids[0] / 40 < 256 && oid == [ids[0] / 40, ids[0] % 40] + ids[1..];
    ElementPlace(data, at, tag, start, end);
  }

  lemma ValueSpan(data: seq<byte>, at: int, end: int, v: Value)
    requires SpeltValue(data, at, end, v)
    ensures 0 <= at < end <= |data|
  {
    hide SpeltAs;
    var tag, start :| Enclosed(data, at, tag, start, end) && SpeltAs(data, at, tag, start, end, v);
    ElementPlace(data, at, tag, start, end);
  }

  lemma VarTight(data: seq<byte>, at: int, all: int, x: Var, next: nat, rest: int)
    ensures VarReads(data, at, all, x, next, rest, true) <==>
      SpeltVar(data, at, next, x) && rest == all - (next - at) && rest >= 0 && VarRoom(x)
  {
    hide ObjectAt, OidReads, ValueReads, SpeltOid, SpeltValue, ValueRoom;
    if VarReads(data, at, all, x, next, rest, true) {
      var start, n, o: Parsed<seq<int>>, t, u :|
        HeaderAt(data, at, all, ASN_SEQUENCE_CONSTRUCTOR, start, n) && rest == all - (n + (start - at)) &&
        OidReads(data, start, n, MAX_NAME_LEN, o, t) && o.tag == ASN_OBJECT_ID && o.value == x.name &&
        ValueReads(data, o.next, o.rest, x.value, next, u) && t && u;
      OidIsTight(data, start, n, MAX_NAME_LEN, o);
      ValueTight(data, o.next, o.rest, x.value, next);
      ValueSpan(data, o.next, next, x.value);
      ObjectPlace(data, at, ASN_SEQUENCE_CONSTRUCTOR, start, n);
      assert Enclosed(data, at, ASN_SEQUENCE_CONSTRUCTOR, start, next);
    }
    if SpeltVar(data, at, next, x) && rest == all - (next - at) && rest >= 0 && VarRoom(x) {
      var start, mid :| Enclosed(data, at, ASN_SEQUENCE_CONSTRUCTOR, start, next) &&
        SpeltOid(data, start, mid, ASN_OBJECT_ID, x.name) && SpeltValue(data, mid, next, x.value);
      OidSpan(data, start, mid, ASN_OBJECT_ID, x.name);
      ValueSpan(data, mid, next, x.value);
      var n, o := next - start, Parsed(ASN_OBJECT_ID, x.name, mid, next - mid);
      OidIsTight(data, start, n, MAX_NAME_LEN, o);
      ValueTight(data, o.next, o.rest, x.value, next);
      assert HeaderAt(data, at, all, ASN_SEQUENCE_CONSTRUCTOR, start, n);
    }
  }

  lemma VarSpan(data: seq<byte>, at: int, end: int, x: Var)
    requires SpeltVar(data, at, end, x)
    ensures 0 <= at < end <= |data|
  {
    hide SpeltOid, SpeltValue;
    var start, mid :| Enclosed(data, at, ASN_SEQUENCE_CONSTRUCTOR, start, end) &&
      SpeltOid(data, start, mid, ASN_OBJECT_ID, x.name) && SpeltValue(data, mid, end, x.value);
    ElementPlace(data, at, ASN_SEQUENCE_CONSTRUCTOR, start, end);
  }

  /** While every variable is tight, what is left is what was not yet used. */
  lemma {:induction false} LeftOver(data: seq<byte>, at: int, all: int, vars: seq<Var>, cuts: seq<nat>, alls: seq<int>, tights: seq<bool>, i: nat)
    requires VarsSoFar(data, at, all, vars, cuts, alls, tights) && AllTight(tights) && i <= |vars|
    ensures alls[i] == all - (cuts[i] - at)
    ensures i > 0 ==> SpeltVar(data, cuts[i - 1], cuts[i], vars[i - 1]) && VarRoom(vars[i - 1])
    decreases i
  {
    hide VarReads, SpeltVar;
    if i > 0 {
      LeftOver(data, at, all, vars, cuts, alls, tights, i - 1);
      assert VarReads(data, cuts[i - 1], alls[i - 1], vars[i - 1], cuts[i], alls[i], tights[i - 1]);
      VarTight(data, cuts[i - 1], alls[i - 1], vars[i - 1], cuts[i], alls[i]);
    }
  }

  lemma VarsReadSpelt(data: seq<byte>, at: int, all: int, vars: seq<Var>, cuts: seq<nat>, alls: seq<int>, tights: seq<bool>)
    requires VarsSoFar(data, at, all, vars, cuts, alls, tights) && alls[|vars|] == 0 && AllTight(tights)
    ensures SpeltVars(data, at, at + all, vars, cuts) && VarsRoom(vars) && (vars != [] ==> at + all <= |data|)
  {
    hide VarReads, SpeltVar, VarRoom;
    forall i | 0 <= i < |vars| ensures SpeltVar(data, cuts[i], cuts[i + 1], vars[i]) && VarRoom(vars[i]) {
      LeftOver(data, at, all, vars, cuts, alls, tights, i + 1);
    }
    LeftOver(data, at, all, vars, cuts, alls, tights, |vars|);
    if vars != [] {
      VarSpan(data, cuts[|vars| - 1], cuts[|vars|], vars[|vars| - 1]);
    }
  }

  lemma {:induction false} VarCutsRise(data: seq<byte>, at: int, end: int, vars: seq<Var>, cuts: seq<nat>, i: nat)
    requires SpeltVars(data, at, end, vars, cuts) && i <= |vars|
    ensures cuts[i] <= end
    decreases |vars| - i
  {
    hide SpeltVar;
    if i < |vars| {
      VarCutsRise(data, at, end, vars, cuts, i + 1);
      VarSpan(data, cuts[i], cuts[i + 1], vars[i]);
    }
  }

  lemma VarsSpeltRead(data: seq<byte>, at: int, end: int, vars: seq<Var>, cuts: seq<nat>) returns (alls: seq<int>, tights: seq<bool>)
    requires SpeltVars(data, at, end, vars, cuts) && VarsRoom(vars)
    ensures VarsSoFar(data, at, end - at, vars, cuts, alls, tights) && alls[|vars|] == 0 && AllTight(tights)
  {
    hide VarReads, SpeltVar, VarRoom;
    alls := seq(|cuts|, i requires 0 <= i < |cuts| => end - cuts[i]);
    tights := seq(|vars|, i => true);
    forall i | 0 <= i < |vars| ensures VarReads(data, cuts[i], alls[i], vars[i], cuts[i + 1], alls[i + 1], tights[i]) {
      VarCutsRise(data, at, end, vars, cuts, i + 1);
      VarTight(data, cuts[i], alls[i], vars[i], cuts[i + 1], alls[i + 1]);
    }
  }

  lemma ListTight(data: seq<byte>, at: int, left: int, vars: seq<Var>)
    ensures ListReads(data, at, left, vars, true) <==> SpeltList(data, at, at + left, vars) && VarsRoom(vars)
  {
    hide ObjectAt, VarReads, SpeltVar, VarsRoom, AllTight;
    if ListReads(data, at, left, vars, true) {
      var start, n, cuts, alls, tights :|
        HeaderAt(data, at, left, ASN_SEQUENCE_CONSTRUCTOR, start, n) && VarsSoFar(data, start, n, vars, cuts, alls, tights) &&
        alls[|vars|] == 0 && AllTight(tights) && start + n == at + left;
      VarsReadSpelt(data, start, n, vars, cuts, alls, tights);
      ObjectPlace(data, at, ASN_SEQUENCE_CONSTRUCTOR, start, n);
      assert Enclosed(data, at, ASN_SEQUENCE_CONSTRUCTOR, start, at + left);
    }
    if SpeltList(data, at, at + left, vars) && VarsRoom(vars) {
      var start, cuts :| Enclosed(data, at, ASN_SEQUENCE_CONSTRUCTOR, start, at + left) && SpeltVars(data, start, at + left, vars, cuts);
      var alls, tights := VarsSpeltRead(data, start, at + left, vars, cuts);
      assert HeaderAt(data, at, left, ASN_SEQUENCE_CONSTRUCTOR, start, at + left - start);
    }
  }

  lemma ListSpan(data: seq<byte>, at: int, end: int, vars: seq<Var>)
    requires SpeltList(data, at, end, vars)
    ensures 0 <= at < end <= |data|
  {
    hide SpeltVars;
    var start, cuts :| Enclosed(data, at, ASN_SEQUENCE_CONSTRUCTOR, start, end) && SpeltVars(data, start, end, vars, cuts);
    ElementPlace(data, at, ASN_SEQUENCE_CONSTRUCTOR, start, end);
  }

  lemma IntSpan(data: seq<byte>, at: int, end: int, tag: byte, v: int)
    requires SpeltInt(data, at, end, tag, v)
    ensures 0 <= at < end <= |data|
  {
    hide TwosComplement;
    var start :| Element(data, at, tag, start, end) && 1 <= end - start <= 4 && v == TwosComplement(data[start..end]);
    ElementPlace(data, at, tag, start, end);
  }

  lemma IntsTight(data: seq<byte>, at: int, left: int, a: int, b: int, c: int, next: nat, rest: int)
    ensures IntsRead(data, at, left, a, b, c, next, rest, true) <==>
      SpeltInts(data, at, next, a, b, c) && rest == left - (next - at) && rest >= 0
  {
    hide IntReads, SpeltInt;
    if IntsRead(data, at, left, a, b, c, next, rest, true) {
      var x: Parsed<int>, y: Parsed<int>, z: Parsed<int>, t, u, w :|
        IntReads(data, at, left, x, t) && IntReads(data, x.next, x.rest, y, u) && IntReads(data, y.next, y.rest, z, w) &&
        x.value == a && y.value == b && z.value == c && z.next == next && z.rest == rest && t && u && w;
      IntTight(data, at, left, x);
      IntTight(data, x.next, x.rest, y);
      IntTight(data, y.next, y.rest, z);
    }
    if SpeltInts(data, at, next, a, b, c) && rest == left - (next - at) && rest >= 0 {
      var tag, tag', tag'', p, q :| SpeltInt(data, at, p, tag, a) && SpeltInt(data, p, q, tag', b) && SpeltInt(data, q, next, tag'', c);
      IntSpan(data, p, q, tag', b);
      IntSpan(data, q, next, tag'', c);
      var x, y, z := Parsed(tag, a, p, left - (p - at)), Parsed(tag', b, q, left - (q - at)), Parsed(tag'', c, next, rest);
      IntTight(data, at, left, x);
      IntTight(data, x.next, x.rest, y);
      IntTight(data, y.next, y.rest, z);
    }
  }

  lemma IntsSpan(data: seq<byte>, at: int, end: int, a: int, b: int, c: int)
    requires SpeltInts(data, at, end, a, b, c)
    ensures 0 <= at < end <= |data|
  {
    hide SpeltInt;
    var tag, tag', tag'', p, q :| SpeltInt(data, at, p, tag, a) && SpeltInt(data, p, q, tag', b) && SpeltInt(data, q, end, tag'', c);
    IntSpan(data, at, p, tag, a);
    IntSpan(data, p, q, tag', b);
    IntSpan(data, q, end, tag'', c);
  }

  lemma PduTight(data: seq<byte>, at: int, left: int, p: Pdu)
    ensures PduReads(data, at, left, p, true) <==> SpeltPdu(data, at, at + left, p) && VarsRoom(p.vars)
  {
    hide ObjectAt, IntsRead, ListReads, SpeltInts, SpeltList, VarsRoom;
    if PduReads(data, at, left, p, true) {
      var start, n, next: nat, rest, t, u :|
        HeaderAt(data, at, left, p.command, start, n) && IntsRead(data, start, n, p.reqid, p.first, p.second, next, rest, t) &&
        ListReads(data, next, rest, p.vars, u) && t && u && start + n == at + left;
      IntsTight(data, start, n, p.reqid, p.first, p.second, next, rest);
      ListTight(data, next, rest, p.vars);
      ListSpan(data, next, next + rest, p.vars);
      ObjectPlace(data, at, p.command, start, n);
      assert Enclosed(data, at, p.command, start, at + left);
    }
    if SpeltPdu(data, at, at + left, p) && VarsRoom(p.vars) {
      var start, mid :| Enclosed(data, at, p.command, start, at + left) &&
        SpeltInts(data, start, mid, p.reqid, p.first, p.second) && SpeltList(data, mid, at + left, p.vars);
      IntsSpan(data, start, mid, p.reqid, p.first, p.second);
      ListSpan(data, mid, at + left, p.vars);
      var n := at + left - start;
      IntsTight(data, start, n, p.reqid, p.first, p.second, mid, at + left - mid);
      ListTight(data, mid, at + left - mid, p.vars);
      assert HeaderAt(data, at, left, p.command, start, n);
    }
  }

  lemma PduSpan(data: seq<byte>, at: int, end: int, p: Pdu)
    requires SpeltPdu(data, at, end, p)
    ensures 0 <= at < end <= |data|
  {
    hide SpeltInts, SpeltList;
    var start, mid :| Enclosed(data, at, p.command, start, end) &&
      SpeltInts(data, start, mid, p.reqid, p.first, p.second) && SpeltList(data, mid, end, p.vars);
    ElementPlace(data, at, p.command, start, end);
  }

  lemma StringSpan(data: seq<byte>, at: int, end: int, tag: byte, s: seq<byte>)
    requires SpeltString(data, at, end, tag, s)
    ensures 0 <= at < end <= |data|
  {
    var start :| Element(data, at, tag, start, end) && s == data[start..end];
    ElementPlace(data, at, tag, start, end);
  }

  /** What fits the buffers of snmp_msg_Decode. */
  predicate MessageRoom(m: Message, room: int) {
    |m.community| <= room && VarsRoom(m.pdu.vars)
  }

  /** A packet reads tightly exactly as the messages that it spells and that fit. */
  lemma MessageTight(packet: seq<byte>, room: int, m: Message)
    ensures MessageReads(packet, room, m, true) <==> Spells(packet, m) && MessageRoom(m, room)
  {
    if MessageReads(packet, room, m, true) {
      MessageReadsSpelt(packet, room, m);
    }
    if Spells(packet, m) && MessageRoom(m, room) {
      MessageSpeltReads(packet, room, m);
    }
  }

  lemma MessageReadsSpelt(packet: seq<byte>, room: int, m: Message)
    requires MessageReads(packet, room, m, true)
    ensures Spells(packet, m) && MessageRoom(m, room)
  {
    hide ObjectAt, IntReads, StringReads, PduReads, SpeltInt, SpeltString, SpeltPdu, VarsRoom;
    var start, n, v: Parsed<int>, s: Parsed<seq<byte>>, t, u :|
      HeaderAt(packet, 0, |packet|, ASN_SEQUENCE_CONSTRUCTOR, start, n) && IntReads(packet, start, n, v, t) && v.value == m.version &&
      StringReads(packet, v.next, v.rest, room, s) && s.value == m.community && PduReads(packet, s.next, s.rest, m.pdu, u) &&
      t && u && start + n == |packet|;
    ObjectPlace(packet, 0, ASN_SEQUENCE_CONSTRUCTOR, start, n);
    IntTight(packet, start, n, v);
    StringTight(packet, v.next, v.rest, room, s);
    PduTight(packet, s.next, s.rest, m.pdu);
    assert Enclosed(packet, 0, ASN_SEQUENCE_CONSTRUCTOR, start, |packet|);
  }

  lemma MessageSpeltReads(packet: seq<byte>, room: int, m: Message)
    requires Spells(packet, m) && MessageRoom(m, room)
    ensures MessageReads(packet, room, m, true)
  {
    hide ObjectAt, IntReads, StringReads, PduReads, SpeltInt, SpeltString, SpeltPdu, VarsRoom;
    var start, tag, p, tag', q :| Enclosed(packet, 0, ASN_SEQUENCE_CONSTRUCTOR, start, |packet|) &&
      SpeltInt(packet, start, p, tag, m.version) && SpeltString(packet, p, q, tag', m.community) && SpeltPdu(packet, q, |packet|, m.pdu);
    StringSpan(packet, p, q, tag', m.community);
    PduSpan(packet, q, |packet|, m.pdu);
    var n := |packet| - start;
    var v, s := Parsed(tag, m.version, p, |packet| - p), Parsed(tag', m.community, q, |packet| - q);
    IntTight(packet, start, n, v);
    StringTight(packet, p, v.rest, room, s);
    PduTight(packet, q, s.rest, m.pdu);
    assert HeaderAt(packet, 0, |packet|, ASN_SEQUENCE_CONSTRUCTOR, start, n);
  }
}
