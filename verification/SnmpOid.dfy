/**
 Object identifiers: asn_build_objid and asn_parse_objid of snmplib/asn1.c.
 */
module SnmpOid {
  import opened Basics
  import opened SnmpAsn

  // ----- Encoding -----

  function Pow128(k: nat): int
    requires k <= 5
  {
    if k == 0 then 1 else if k == 1 then 0x80 else if k == 2 then 0x4000 else if k == 3 then 0x20_0000
    else if k == 4 then 0x1000_0000 else 0x8_0000_0000
  }

  /** How many groups of seven bits a sub-identifier needs. */
  function SubSize(id: int): (n: nat)
    requires Uint32(id)
    ensures 1 <= n <= 5 && id < Pow128(n) && (n > 1 ==> Pow128(n - 1) <= id)
  {
    if id < 0x80 then 1 else if id < 0x4000 then 2 else if id < 0x20_0000 then 3 else if id < 0x1000_0000 then 4 else 5
  }

  /** Group `i` of `n`, most significant first; all but the last are marked. */
  function SubByte(id: int, n: nat, i: nat): byte
    requires Uint32(id) && i < n <= 5
  {
    id / Pow128(n - 1 - i) % 128 + if i < n - 1 then ASN_BIT8 else 0
  }

  function SubBytes(id: int): (s: seq<byte>)
    requires Uint32(id)
    ensures |s| == SubSize(id)
  {
    seq(SubSize(id), i requires 0 <= i < SubSize(id) => SubByte(id, SubSize(id), i))
  }

  predicate Words(ids: seq<int>) {
    forall i :: 0 <= i < |ids| ==> Uint32(ids[i])
  }

  function IdBytes(ids: seq<int>): seq<byte>
    requires Words(ids)
  {
    if ids == [] then [] else SubBytes(ids[0]) + IdBytes(ids[1..])
  }

  /** The contents of an object identifier: the first two sub-identifiers share a byte. */
  function OidBytes(oid: seq<int>): seq<byte>
    requires Words(oid)
  {
    if |oid| < 2 then [0] else [(oid[0] * 40 + oid[1]) % 256] + IdBytes(oid[2..])
  }

  lemma {:induction false} IdBytesSnoc(ids: seq<int>, id: int)
    requires Words(ids) && Uint32(id)
    ensures Words(ids + [id]) && IdBytes(ids + [id]) == IdBytes(ids) + SubBytes(id)
    decreases |ids|
  {
    if ids == [] {
      assert ids + [id] == [id] && [id][1..] == [];
    } else {
      assert (ids + [id])[1..] == ids[1..] + [id];
      IdBytesSnoc(ids[1..], id);
    }
  }

  // ----- Building -----

  /** A mask of `width` bits, `bits` up from the bottom; a width of zero is the zero mask. */
  datatype Mask = Mask(bits: nat, width: nat)

  const LOW7 := Mask(0, 7)

  /** `testmask <<= 7` loses what does not fit 32 bits. */
  function MaskUp(m: Mask): Mask
    requires m.bits <= 28
  {
    if m.bits < 21 then Mask(m.bits + 7, 7) else if m.bits == 21 then Mask(28, 4) else Mask(m.bits + 7, 0)
  }

  /** `mask >>= 7`, which does not bring them back. */
  function MaskDown(m: Mask): Mask
    requires m.bits >= 7
  {
    Mask(m.bits - 7, m.width)
  }

  predicate MaskOk(m: Mask) {
    (m.bits == 0 || m.bits == 7 || m.bits == 14 || m.bits == 21 || m.bits == 28) && (m.width == 7 || m.width == 4)
  }

  /** `(subid & mask) >> bits`. */
  function Field(id: int, m: Mask): int
    requires MaskOk(m)
  {
    id / Pow128(m.bits / 7) % if m.width == 7 then 128 else 16
  }

  lemma FieldIsByte(id: int, n: nat, k: nat, m: Mask)
    requires Uint32(id) && k < n <= 5 && m == Mask(7 * k, if k == 4 then 4 else 7)
    ensures MaskOk(m) && Field(id, m) == id / Pow128(k) % 128
  {
  }

  /** The masks that the loops go through. */
  function StepMask(k: nat): Mask
    requires k <= 4
  {
    Mask(7 * k, if k == 4 then 4 else 7)
  }

  /** The loop that finds the topmost group with a bit set. */
  method TopMask(id: int) returns (mask: Mask)
    requires Uint32(id) && id > 0
    ensures mask == StepMask(SubSize(id) - 1)
  {
    ghost var n, k := SubSize(id), 0;
    mask := LOW7;
    var test := LOW7;
    while test.width != 0
      invariant k <= 5 && (if k == 5 then test.width == 0 else test == StepMask(k))
      invariant (k >= n ==> mask == StepMask(n - 1))
      decreases 5 - k
    {
      TestMask(id, n, k);
      if Field(id, test) != 0 {
        mask := test;
      }
      test := MaskUp(test);
      k := k + 1;
    }
  }

  /** One sub-identifier, most significant group first; a mask that was cut off is repaired. */
  method BuildSubid(id: int) returns (out: seq<byte>)
    requires Uint32(id)
    ensures out == SubBytes(id)
  {
    ghost var n := SubSize(id);
    if id < 127 {
      return [id];
    }
    var mask := TopMask(id);
    out := [];
    ghost var k := n - 1;
    while mask != LOW7
      invariant 0 <= k < n && |out| == n - 1 - k && (mask == StepMask(k) || (k == 3 && mask == Mask(21, 4)))
      invariant forall i :: 0 <= i < |out| ==> out[i] == SubByte(id, n, i)
      decreases k
    {
      if mask == Mask(21, 4) {
        mask := Mask(21, 7);
      }
      FieldIsByte(id, n, k, mask);
      out := out + [Field(id, mask) + ASN_BIT8];
      mask := MaskDown(mask);
      k := k - 1;
    }
    FieldIsByte(id, n, 0, mask);
    out := out + [Field(id, mask)];
  }

  /** A group tested by the first loop: the last one that is not zero is the topmost. */
  lemma TestMask(id: int, n: nat, k: nat)
    requires Uint32(id) && n == SubSize(id) && k <= 4
    ensures var m := Mask(7 * k, if k == 4 then 4 else 7);
      MaskOk(m) && (k == n - 1 && id > 0 ==> Field(id, m) != 0) && (k >= n ==> Field(id, m) == 0)
  {
  }

  /** asn_build_objid.  Its buffer holds MAX_OID_LEN bytes. */
  method BuildOid(data: array<byte>, at: nat, left: int, tag: byte, oid: seq<int>) returns (ok: bool, next: nat, rest: int)
    requires 0 <= left && at + left <= data.Length && Words(oid) && |OidBytes(oid)| <= MAX_OID_LEN
    modifies data
    ensures Built(data, at, left, Tlv(tag, OidBytes(oid)), ok, next, rest)
  {
    var buf := OidContents(oid);
    ok, next, rest := BuildString(data, at, left, tag, buf);
  }

  method OidContents(oid: seq<int>) returns (buf: seq<byte>)
    requires Words(oid) && |OidBytes(oid)| <= MAX_OID_LEN
    ensures buf == OidBytes(oid)
  {
    if |oid| < 2 {
      return [0];
    }
    buf := AppendIds([(oid[0] * 40 + oid[1]) % 256], oid[2..]);
  }

  method AppendIds(front: seq<byte>, ids: seq<int>) returns (buf: seq<byte>)
    requires Words(ids)
    ensures buf == front + IdBytes(ids)
  {
    hide SubBytes, IdBytes;
    buf := front;
    var i := 0;
    AppendNone(front, ids);
    while i < |ids|
      invariant 0 <= i <= |ids| && buf == front + IdBytes(ids[..i])
    {
      var sub := BuildSubid(ids[i]);
      AppendOne(front, ids, i);
      buf := buf + sub;
      i := i + 1;
    }
    assert ids[..i] == ids;
  }

  lemma AppendNone(front: seq<byte>, ids: seq<int>)
    requires Words(ids)
    ensures front == front + IdBytes(ids[..0])
  {
  }

  lemma AppendOne(front: seq<byte>, ids: seq<int>, i: nat)
    requires Words(ids) && i < |ids|
    ensures front + IdBytes(ids[..i + 1]) == front + IdBytes(ids[..i]) + SubBytes(ids[i])
  {
    hide SubBytes, IdBytes;
    IdBytesSnoc(ids[..i], ids[i]);
    assert ids[..i] + [ids[i]] == ids[..i + 1];
  }

  // ----- Sub-identifiers -----

  /** What groups of seven bits are worth together. */
  function Base128(s: seq<byte>): nat {
    if s == [] then 0 else 128 * Base128(s[..|s| - 1]) + s[|s| - 1] % 128
  }

  /** A sub-identifier: all its bytes but the last are marked, and 32 bits of it are kept. */
  predicate SubidAt(data: seq<byte>, at: int, v: int, next: int) {
    0 <= at < next <= |data| && data[next - 1] < ASN_BIT8 && (forall i :: at <= i < next - 1 ==> data[i] >= ASN_BIT8) &&
    v == Base128(data[at..next]) % WORD
  }

  /** One sub-identifier: groups of seven bits up to one that is not marked. */
  method TakeSubid(data: seq<byte>, at: nat) returns (r: Option<(int, nat)>)
    ensures r.Some? ==> SubidAt(data, at, r.value.0, r.value.1)
    ensures forall v: int, next: nat :: SubidAt(data, at, v, next) ==> r == Some((v, next))
  {
    var sub, p := 0, at;
    while true
      invariant at <= p && (p <= |data| ==> sub == Base128(data[at..p]) % WORD)
      invariant forall i :: at <= i < p && i < |data| ==> data[i] >= ASN_BIT8
      decreases |data| - p
    {
      if p >= |data| {
        return None;
      }
      GroupIn(data, at, p);
      sub := (sub * 128 + data[p] % 128) % WORD;
      p := p + 1;
      if data[p - 1] < ASN_BIT8 {
        return Some((sub, p));
      }
    }
  }

  lemma GroupIn(data: seq<byte>, at: nat, p: nat)
    requires at <= p < |data|
    ensures (Base128(data[at..p]) % WORD * 128 + data[p] % 128) % WORD == Base128(data[at..p + 1]) % WORD
  {
    assert data[at..p + 1][..p - at] == data[at..p];
    var x, g := Base128(data[at..p]), data[p] % 128;
    var q := x / WORD;
    assert x * 128 + g == x % WORD * 128 + g + q * 128 * WORD;
    ModShift(x % WORD * 128 + g, q * 128);
  }

  lemma AddGroup(id: int, n: nat, i: nat)
    requires Uint32(id) && i < n <= 5
    ensures (id / Pow128(n - i)) * 128 + id / Pow128(n - i - 1) % 128 == id / Pow128(n - i - 1)
  {
  }

  lemma GroupAt(data: seq<byte>, at: nat, id: int, i: nat)
    requires Uint32(id) && Holds(data, at, SubBytes(id)) && i < SubSize(id)
    ensures at + i < |data| && data[at + i] % 128 == id / Pow128(SubSize(id) - 1 - i) % 128
    ensures data[at + i] < ASN_BIT8 <==> i == SubSize(id) - 1
  {
    HoldsAt(data, at, SubBytes(id), i);
  }

  lemma SubidEnds(id: int)
    requires Uint32(id)
    ensures id / Pow128(SubSize(id)) == 0 && id / Pow128(0) == id
    ensures forall k :: 0 <= k <= 5 ==> Pow128(k) > 0
  {
  }

  lemma {:induction false} GroupsSoFar(data: seq<byte>, at: nat, id: int, i: nat)
    requires Uint32(id) && Holds(data, at, SubBytes(id)) && i <= SubSize(id) && at + i <= |data|
    ensures Pow128(SubSize(id) - i) > 0 && Base128(data[at..at + i]) == id / Pow128(SubSize(id) - i)
    decreases i
  {
    SubidEnds(id);
    hide SubBytes, Pow128, SubSize;
    if i > 0 {
      GroupsSoFar(data, at, id, i - 1);
      GroupAt(data, at, id, i - 1);
      AddGroup(id, SubSize(id), i - 1);
      assert data[at..at + i][..i - 1] == data[at..at + i - 1];
    }
  }

  /** What asn_build_objid writes for a number is that sub-identifier. */
  lemma SubidReturns(data: seq<byte>, at: nat, id: int)
    requires Uint32(id) && Holds(data, at, SubBytes(id))
    ensures SubidAt(data, at, id, at + SubSize(id))
  {
    var n := SubSize(id);
    hide SubBytes, Pow128, SubSize;
    GroupAt(data, at, id, n - 1);
    GroupsSoFar(data, at, id, n);
    SubidEnds(id);
    forall i | at <= i < at + n - 1 ensures data[i] >= ASN_BIT8 {
      GroupAt(data, at, id, i - at);
    }
  }

  // ----- The contents of an identifier -----

  /** Sub-identifiers one after the other, each starting within the contents. */
  ghost predicate IdsSoFar(data: seq<byte>, start: int, n: int, ids: seq<int>, cuts: seq<int>) {
    |cuts| == |ids| + 1 && cuts[0] == start &&
    forall i :: 0 <= i < |ids| ==> cuts[i] < start + n && SubidAt(data, cuts[i], ids[i], cuts[i + 1])
  }

  /** The same up to where reading stops: the contents used up, or `room` filled. */
  ghost predicate IdsRead(data: seq<byte>, start: int, n: int, room: int, ids: seq<int>, cuts: seq<int>) {
    |cuts| == |ids| + 1 && IdsSoFar(data, start, n, ids, cuts) && |ids| <= room && (cuts[|ids|] >= start + n || |ids| == room)
  }

  lemma {:induction false} SoFarAgree(data: seq<byte>, start: int, n: int, a: seq<int>, c: seq<int>, b: seq<int>, d: seq<int>, i: nat)
    requires IdsSoFar(data, start, n, a, c) && IdsSoFar(data, start, n, b, d) && i <= |a| && i <= |b|
    ensures c[..i + 1] == d[..i + 1] && a[..i] == b[..i]
    decreases i
  {
    if i > 0 {
      SoFarAgree(data, start, n, a, c, b, d, i - 1);
      assert c[..i][i - 1] == d[..i][i - 1];
      SubidUnique(data, c[i - 1], a[i - 1], c[i], b[i - 1], d[i]);
      assert a[..i] == a[..i - 1] + [a[i - 1]] && b[..i] == b[..i - 1] + [b[i - 1]];
      assert c[..i + 1] == c[..i] + [c[i]] && d[..i + 1] == d[..i] + [d[i]];
    }
  }

  lemma SubidUnique(data: seq<byte>, at: int, v: int, next: int, v': int, next': int)
    requires SubidAt(data, at, v, next) && SubidAt(data, at, v', next')
    ensures v == v' && next == next'
  {
    hide Base128;
  }

  /** What was read so far is how every reading starts. */
  lemma SoFarStarts(data: seq<byte>, start: int, n: int, room: int, a: seq<int>, c: seq<int>, b: seq<int>, d: seq<int>)
    requires IdsSoFar(data, start, n, a, c) && |a| <= room && IdsRead(data, start, n, room, b, d)
    requires |a| == 0 || c[|a| - 1] < start + n
    ensures |a| <= |b| && c == d[..|a| + 1] && a == b[..|a|]
    ensures c[|a|] < start + n && |a| < room ==> |a| < |b| && SubidAt(data, c[|a|], b[|a|], d[|a| + 1])
    ensures c[|a|] >= start + n || |a| == room ==> a == b && c == d
  {
    hide SubidAt;
    var i := if |a| <= |b| then |a| else |b|;
    assert forall j :: 0 <= j < |a| ==> c[j] < start + n;
    SoFarAgree(data, start, n, a, c, b, d, i);
    assert c[..i + 1][i] == d[..i + 1][i];
    assert c[..|a| + 1] == c && a[..|a|] == a;
    if |a| < |b| {
      assert d[|a|] < start + n;
    } else {
      assert d[..|a| + 1] == d && b[..|a|] == b;
    }
  }

  lemma OneMoreId(data: seq<byte>, start: int, n: int, ids: seq<int>, cuts: seq<int>, v: int, next: int)
    requires IdsSoFar(data, start, n, ids, cuts) && cuts[|ids|] < start + n && SubidAt(data, cuts[|ids|], v, next)
    ensures IdsSoFar(data, start, n, ids + [v], cuts + [next])
  {
    hide SubidAt;
  }

  /** The loop over the contents. */
  method TakeIds(data: seq<byte>, start: nat, n: nat, room: nat) returns (r: Option<(seq<int>, nat)>, ghost cuts: seq<int>)
    requires start <= |data|
    ensures r.Some? ==> IdsRead(data, start, n, room, r.value.0, cuts) && cuts[|r.value.0|] == r.value.1 && start <= r.value.1 <= |data|
    ensures forall ids, c :: IdsRead(data, start, n, room, ids, c) ==> r.Some? && ids == r.value.0
    ensures forall ids, c :: IdsRead(data, start, n, room, ids, c) ==> c == cuts
  {
    hide SubidAt;
    var raw, p, length, more := [], start, n as int, room;
    cuts := [start];
    while length > 0 && more > 0
      invariant start <= p <= |data| && |raw| + more == room && length == start + n - p
      invariant IdsSoFar(data, start, n, raw, cuts) && cuts[|raw|] == p
      decreases more
    {
      var s := TakeSubid(data, p);
      forall ids, c | IdsRead(data, start, n, room, ids, c) ensures s.Some? {
        SoFarStarts(data, start, n, room, raw, cuts, ids, c);
        SubidPlace(data, p, ids[|raw|], c[|raw| + 1]);
      }
      if s.None? {
        return None, cuts;
      }
      SubidPlace(data, p, s.value.0, s.value.1);
      OneMoreId(data, start, n, raw, cuts, s.value.0, s.value.1);
      length := length - (s.value.1 - p);
      p := s.value.1;
      raw, more, cuts := raw + [s.value.0], more - 1, cuts + [p];
    }
    forall ids, c | IdsRead(data, start, n, room, ids, c) ensures ids == raw && c == cuts {
      SoFarStarts(data, start, n, room, raw, cuts, ids, c);
    }
    r := Some((raw, p));
  }

  lemma SubidPlace(data: seq<byte>, at: int, v: int, next: int)
    requires SubidAt(data, at, v, next)
    ensures 0 <= at < next <= |data| && Uint32(v)
  {
  }

  // ----- Parsing -----

  /** The first number back into two. */
  function Expand(x: int): (int, int) {
    if x == 0x2B then (1, 3) else ((x - x % 40) / 40 % 256, x % 40)
  }

  /** The identifier that the numbers read make; with none, it is a single zero. */
  function Expanded(ids: seq<int>): seq<int> {
    if ids == [] then [0] else [Expand(ids[0]).0, Expand(ids[0]).1] + ids[1..]
  }

  /** An identifier as asn_parse_objid reads it; `tight` if it is as it should be written. */
  ghost predicate OidReads(data: seq<byte>, at: int, left: int, room: int, p: Parsed<seq<int>>, tight: bool) {
    exists start, n, ids, cuts ::
      ObjectAt(data, at, p.tag, start, n) && n + (start - at) <= left && IdsRead(data, start, n, room - 1, ids, cuts) &&
      p.value == Expanded(ids) && p.next == cuts[|ids|] && p.rest == left - (n + (start - at)) && tight == OidTight(ids, cuts, start + n)
  }

  predicate OidTight(ids: seq<int>, cuts: seq<int>, end: int) {
    ids != [] && |cuts| == |ids| + 1 && cuts[|ids|] == end && 0 <= ids[0] / 40 < 256
  }

  /** asn_parse_objid into room for `room` sub-identifiers. */
  method ParseOid(data: seq<byte>, at: nat, left: int, room: nat) returns (r: Option<Parsed<seq<int>>>, ghost tight: bool)
    requires room >= 2
    ensures r.Some? ==> OidReads(data, at, left, room, r.value, tight)
    ensures forall p, t :: OidReads(data, at, left, room, p, t) ==> r == Some(p) && t == tight
    ensures r.Some? ==> at < r.value.next <= |data| && 0 <= r.value.rest <= left && r.value.tag == data[at]
  {
    hide ParseLength, LengthAt, IdsRead, Expanded, OidTight;
    r, tight := None, false;
    forall tag, start, n | ObjectAt(data, at, tag, start, n) ensures start >= 0 && ParseLength(data, at + 1) == Some((n, start)) {
      ObjectPlace(data, at, tag, start, n);
    }
    var l := ParseLength(data, at + 1);
    if at >= |data| || l.None? {
      return;
    }
    var (n, start) := l.value;
    LengthExact(data, at + 1, n, start);
    ObjectPlace(data, at, data[at], start, n);
    if n + (start - at) > left {
      return;
    }
    ghost var cuts;
    var ids;
    ids, cuts := TakeIds(data, start, n, room - 1);
    if ids.None? {
      return;
    }
    var (raw, next) := ids.value;
    var oid := [0];
    if raw != [] {
      var (first, second) := Expand(raw[0]);
      oid := [first, second] + raw[1..];
    }
    ExpandedIs(raw, oid);
    tight := OidTight(raw, cuts, start + n);
    r := Some(Parsed(data[at], oid, next, left - (n + (start - at))));
    OidReadsBy(data, at, left, room, start, n, raw, cuts, r.value);
  }

  lemma ExpandedIs(ids: seq<int>, oid: seq<int>)
    requires if ids == [] then oid == [0] else oid == [Expand(ids[0]).0, Expand(ids[0]).1] + ids[1..]
    ensures oid == Expanded(ids)
  {
  }

  lemma OidReadsBy(data: seq<byte>, at: int, left: int, room: int, start: int, n: int, ids: seq<int>, cuts: seq<int>, p: Parsed<seq<int>>)
    requires ObjectAt(data, at, p.tag, start, n) && n + (start - at) <= left && IdsRead(data, start, n, room - 1, ids, cuts)
    requires p.value == Expanded(ids) && p.next == cuts[|ids|] && p.rest == left - (n + (start - at))
    ensures OidReads(data, at, left, room, p, OidTight(ids, cuts, start + n))
  {
    hide ObjectAt, IdsSoFar, Expanded;
  }

  // ----- What was built comes back -----

  /** An object identifier that its encoding determines. */
  predicate Faithful(oid: seq<int>) {
    Words(oid) && |oid| >= 2 && oid[1] < 40 && oid[0] * 40 + oid[1] < 128
  }

  /** The byte that the first two sub-identifiers share. */
  function FirstByte(oid: seq<int>): byte
    requires Words(oid)
  {
    if |oid| < 2 then 0 else (oid[0] * 40 + oid[1]) % 256
  }

  /** The numbers that are encoded one by one, if the first byte is not marked. */
  function Raw(oid: seq<int>): (ids: seq<int>)
    requires Words(oid) && FirstByte(oid) < ASN_BIT8
    ensures Words(ids)
  {
    [FirstByte(oid)] + if |oid| < 2 then [] else oid[2..]
  }

  lemma RawBytes(oid: seq<int>)
    requires Words(oid) && FirstByte(oid) < ASN_BIT8
    ensures IdBytes(Raw(oid)) == OidBytes(oid) && |Raw(oid)| == if |oid| < 2 then 1 else |oid| - 1
  {
    var x := FirstByte(oid);
    assert SubBytes(x) == [x];
    assert Raw(oid)[1..] == if |oid| < 2 then [] else oid[2..];
  }

  /** Where each of the sub-identifiers starts. */
  function IdCuts(at: int, ids: seq<int>): (cuts: seq<int>)
    requires Words(ids)
    ensures |cuts| == |ids| + 1 && cuts[0] == at && cuts[|ids|] == at + |IdBytes(ids)|
    decreases |ids|
  {
    if ids == [] then [at] else [at] + IdCuts(at + SubSize(ids[0]), ids[1..])
  }

  /** What was written for some numbers reads as those numbers. */
  lemma {:induction false} IdsReturn(data: seq<byte>, at: nat, ids: seq<int>)
    requires Words(ids) && Holds(data, at, IdBytes(ids))
    ensures IdsSoFar(data, at, |IdBytes(ids)|, ids, IdCuts(at, ids))
    decreases |ids|
  {
    if ids != [] {
      var rest, next := ids[1..], at + SubSize(ids[0]);
      HoldsSplit(data, at, SubBytes(ids[0]), IdBytes(rest));
      SubidReturns(data, at, ids[0]);
      IdsReturn(data, next, rest);
      hide SubidAt, SubBytes, IdBytes;
      ConsId(data, at, |IdBytes(ids)|, ids, IdCuts(next, rest));
    }
  }

  lemma ConsId(data: seq<byte>, at: int, n: int, ids: seq<int>, cuts: seq<int>)
    requires ids != [] && n > 0 && cuts != [] && SubidAt(data, at, ids[0], cuts[0])
    requires IdsSoFar(data, cuts[0], at + n - cuts[0], ids[1..], cuts)
    ensures IdsSoFar(data, at, n, ids, [at] + cuts)
  {
    hide SubidAt;
    var all := [at] + cuts;
    forall i | 0 <= i < |ids| ensures all[i] < at + n && SubidAt(data, all[i], ids[i], all[i + 1]) {
      if i > 0 {
        assert cuts[i - 1] < at + n && SubidAt(data, cuts[i - 1], ids[1..][i - 1], cuts[i]);
      }
    }
  }

  // ----- How many sub-identifiers there are -----

  /** Bytes that end a sub-identifier. */
  function Ends(s: seq<byte>): nat {
    if s == [] then 0 else Ends(s[..|s| - 1]) + if s[|s| - 1] < ASN_BIT8 then 1 else 0
  }

  lemma {:induction false} EndsAppend(a: seq<byte>, b: seq<byte>)
    ensures Ends(a + b) == Ends(a) + Ends(b)
    decreases |b|
  {
    if b == [] {
      assert a + b == a;
    } else {
      assert (a + b)[..|a + b| - 1] == a + b[..|b| - 1];
      EndsAppend(a, b[..|b| - 1]);
    }
  }

  lemma {:induction false} EndsMarked(s: seq<byte>)
    requires forall i :: 0 <= i < |s| ==> s[i] >= ASN_BIT8
    ensures Ends(s) == 0
  {
    if s != [] {
      EndsMarked(s[..|s| - 1]);
    }
  }

  lemma EndsOnce(s: seq<byte>)
    requires s != [] && s[|s| - 1] < ASN_BIT8 && forall i :: 0 <= i < |s| - 1 ==> s[i] >= ASN_BIT8
    ensures Ends(s) == 1
  {
    EndsMarked(s[..|s| - 1]);
  }

  lemma EndsSubid(id: int)
    requires Uint32(id)
    ensures Ends(SubBytes(id)) == 1
  {
    var s, n := SubBytes(id), SubSize(id);
    forall i | 0 <= i < n ensures s[i] >= ASN_BIT8 <==> i < n - 1 {
      assert s[i] == SubByte(id, n, i);
    }
    EndsOnce(s);
  }

  lemma {:induction false} EndsIds(ids: seq<int>)
    requires Words(ids)
    ensures Ends(IdBytes(ids)) == |ids|
  {
    if ids != [] {
      EndsIds(ids[1..]);
      EndsSubid(ids[0]);
      EndsAppend(SubBytes(ids[0]), IdBytes(ids[1..]));
    }
  }

  /** A marked first byte runs into the sub-identifier after it, so that one is missing. */
  lemma EndsMissing(oid: seq<int>)
    requires Words(oid) && FirstByte(oid) >= ASN_BIT8
    ensures |oid| >= 2 && Ends(OidBytes(oid)) == |oid| - 2
  {
    EndsIds(oid[2..]);
    EndsMarked([FirstByte(oid)]);
    EndsAppend([FirstByte(oid)], IdBytes(oid[2..]));
  }

  /** As many numbers are read as there are bytes that end one. */
  lemma {:induction false} EndsRead(data: seq<byte>, start: nat, n: int, ids: seq<int>, cuts: seq<int>, i: nat)
    requires IdsSoFar(data, start, n, ids, cuts) && i <= |ids| && start <= |data|
    ensures start <= cuts[i] <= |data| && Ends(data[start..cuts[i]]) == i
    decreases i
  {
    if i > 0 {
      EndsRead(data, start, n, ids, cuts, i - 1);
      var p, q := cuts[i - 1], cuts[i];
      assert SubidAt(data, p, ids[i - 1], q);
      EndsOnce(data[p..q]);
      assert data[start..q] == data[start..p] + data[p..q];
      EndsAppend(data[start..p], data[p..q]);
    }
  }

  // ----- Which identifiers come back -----

  /** Below 40 is exactly when the second sub-identifier survives sharing a byte. */
  lemma ExpandExact(first: nat, second: nat)
    requires first * 40 + second < 128
    ensures Expand(first * 40 + second) == (first, second) <==> second < 40
  {
    var x := first * 40 + second;
    if second < 40 {
      assert x % 40 == second;
    }
  }

  /** Of what its contents are read as, an identifier comes back only if it is faithful. */
  lemma ExpandRaw(oid: seq<int>)
    requires Words(oid) && FirstByte(oid) < ASN_BIT8
    ensures Expanded(Raw(oid)) == oid <==> Faithful(oid)
  {
    var x := FirstByte(oid);
    var (first, second) := Expand(x);
    ExpandParts(x);
    hide Expand;
    assert Raw(oid)[0] == x && Raw(oid)[1..] == if |oid| < 2 then [] else oid[2..];
    var back := Expanded(Raw(oid));
    assert back[0] == first && back[1] == second;
    if |oid| >= 2 {
      ExpandPair(oid[0], oid[1], x);
      assert oid == [oid[0], oid[1]] + oid[2..];
      assert back == oid <==> (first, second) == (oid[0], oid[1]);
    }
  }

  lemma ExpandParts(x: int)
    requires 0 <= x < ASN_BIT8
    ensures Expand(x).0 * 40 + Expand(x).1 == x && Expand(x).1 < 40
  {
  }

  lemma ExpandPair(a: int, b: int, x: int)
    requires Uint32(a) && Uint32(b) && x == (a * 40 + b) % 256 < ASN_BIT8
    ensures Expand(x) == (a, b) <==> b < 40 && a * 40 + b < 128
  {
    ExpandParts(x);
    if a * 40 + b < 128 {
      ExpandExact(a, b);
    }
  }

  /** Of what asn_build_objid wrote, asn_parse_objid gives back exactly the faithful identifiers. */
  lemma OidReturns(data: seq<byte>, at: nat, left: int, room: nat, tag: byte, oid: seq<int>)
    requires Words(oid) && |oid| <= room && room >= 2 && |OidBytes(oid)| <= MAX_OID_LEN
    requires Holds(data, at, Tlv(tag, OidBytes(oid))) && |Tlv(tag, OidBytes(oid))| <= left
    ensures var n := |Tlv(tag, OidBytes(oid))|;
      OidReads(data, at, left, room, Parsed(tag, oid, at + n, left - n), true) <==> Faithful(oid)
    ensures var n := |Tlv(tag, OidBytes(oid))|;
      !Faithful(oid) ==> !OidReads(data, at, left, room, Parsed(tag, oid, at + n, left - n), false)
  {
    hide Tlv, OidBytes, LengthBytes, Holds, Faithful, ObjectAt;
    var s := OidBytes(oid);
    var start := at + 1 + |LengthBytes(|s|)|;
    TlvObject(data, at, tag, s);
    var p := Parsed(tag, oid, start + |s|, left - (start - at + |s|));
    if Faithful(oid) {
      FaithfulReads(data, at, left, room, oid, start, p);
    } else {
      forall t: bool ensures !OidReads(data, at, left, room, p, t) {
        if OidReads(data, at, left, room, p, t) {
          ReadsFaithful(data, at, left, room, oid, start, p, t);
        }
      }
    }
  }

  lemma FaithfulReads(data: seq<byte>, at: nat, left: int, room: nat, oid: seq<int>, start: nat, p: Parsed<seq<int>>)
    requires Faithful(oid) && |oid| <= room && Holds(data, start, OidBytes(oid)) && ObjectAt(data, at, p.tag, start, |OidBytes(oid)|)
    requires p == Parsed(p.tag, oid, start + |OidBytes(oid)|, left - (start - at + |OidBytes(oid)|)) && p.rest >= 0
    ensures OidReads(data, at, left, room, p, true)
  {
    hide ObjectAt, OidBytes, IdsSoFar, Expanded, IdBytes, Holds;
    RawBytes(oid);
    ExpandRaw(oid);
    IdsReturn(data, start, Raw(oid));
    var cuts := IdCuts(start, Raw(oid));
    assert IdsRead(data, start, |OidBytes(oid)|, room - 1, Raw(oid), cuts);
    assert OidTight(Raw(oid), cuts, start + |OidBytes(oid)|);
  }

  lemma ReadsFaithful(data: seq<byte>, at: nat, left: int, room: nat, oid: seq<int>, start: nat, p: Parsed<seq<int>>, t: bool)
    requires Words(oid) && |oid| <= room && room >= 2
    requires Holds(data, start, OidBytes(oid)) && ObjectAt(data, at, p.tag, start, |OidBytes(oid)|)
    requires p.value == oid && p.next == start + |OidBytes(oid)| && OidReads(data, at, left, room, p, t)
    ensures Faithful(oid)
  {
    hide ObjectAt, OidBytes, IdsSoFar, Expanded, Faithful;
    var n := |OidBytes(oid)|;
    var start', n', ids, cuts :| ObjectAt(data, at, p.tag, start', n') && n' + (start' - at) <= left &&
      IdsRead(data, start', n', room - 1, ids, cuts) && p.value == Expanded(ids) && p.next == cuts[|ids|] &&
      p.rest == left - (n' + (start' - at)) && t == OidTight(ids, cuts, start' + n');
    ObjectPlace(data, at, p.tag, start, n);
    ObjectPlace(data, at, p.tag, start', n');
    OtherIds(data, start, room, oid, ids, cuts);
  }

  /** The numbers read where an identifier was written make another one, unless it is faithful. */
  lemma OtherIds(data: seq<byte>, start: nat, room: nat, oid: seq<int>, ids: seq<int>, cuts: seq<int>)
    requires Words(oid) && |oid| <= room && room >= 2 && Holds(data, start, OidBytes(oid))
    requires IdsRead(data, start, |OidBytes(oid)|, room - 1, ids, cuts) && cuts[|ids|] == start + |OidBytes(oid)|
    ensures Expanded(ids) == oid ==> Faithful(oid)
  {
    hide OidBytes, IdBytes, IdsSoFar, Expanded, Faithful;
    if FirstByte(oid) < ASN_BIT8 {
      RawBytes(oid);
      IdsReturn(data, start, Raw(oid));
      SoFarStartsAll(data, start, |OidBytes(oid)|, room - 1, Raw(oid), IdCuts(start, Raw(oid)), ids, cuts);
      ExpandRaw(oid);
    } else {
      EndsMissing(oid);
      EndsRead(data, start, |OidBytes(oid)|, ids, cuts, |ids|);
      assert data[start..start + |OidBytes(oid)|] == OidBytes(oid);
      ExpandedSize(ids);
    }
  }

  lemma ExpandedSize(ids: seq<int>)
    ensures |Expanded(ids)| == |ids| + 1
  {
  }

  lemma SoFarStartsAll(data: seq<byte>, start: int, n: int, room: int, a: seq<int>, c: seq<int>, b: seq<int>, d: seq<int>)
    requires IdsSoFar(data, start, n, a, c) && |a| <= room && c[|a|] == start + n && IdsRead(data, start, n, room, b, d)
    ensures a == b
  {
    hide SubidAt;
    SoFarStarts(data, start, n, room, a, c, b, d);
  }
}
