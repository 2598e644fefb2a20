/**
 The ASN.1 build and parse routines of snmplib/asn1.c.  Bytes and integers are mathematical
 integers in range; shifts and masks are written as division and remainder.
 */
module SnmpAsn {
  import opened Basics

  const ASN_LONG_LEN := 0x80
  const ASN_BIT8 := 0x80
  const ASN_INTEGER: byte := 0x02
  const ASN_OCTET_STR: byte := 0x04
  const ASN_NULL: byte := 0x05
  const ASN_OBJECT_ID: byte := 0x06
  const ASN_SEQUENCE_CONSTRUCTOR: byte := 0x30
  const MAX_OID_LEN := 128
  const MAX_LENGTH := 0xFFFF
  const MAX_CONTENTS := 0x8_0000
  const WORD := 0x1_0000_0000

  // ----- Encodings -----

  /** A definite length in as few bytes as it needs, up to two bytes of value. */
  function LengthBytes(n: nat): (s: seq<byte>)
    ensures 1 <= |s| <= 3
  {
    if n < 0x80 then [n] else if n <= 0xFF then [0x81, n] else [0x82, n / 256 % 256, n % 256]
  }

  /** A header whose length can be filled in later. */
  function WideHeader(tag: byte, n: nat): (s: seq<byte>)
    ensures |s| == 4
  {
    [tag, 0x82, n / 256 % 256, n % 256]
  }

  function Tlv(tag: byte, body: seq<byte>): seq<byte> {
    [tag] + LengthBytes(|body|) + body
  }

  function Wide(tag: byte, body: seq<byte>): seq<byte> {
    WideHeader(tag, |body|) + body
  }

  predicate Int32(v: int) {
    -0x8000_0000 <= v < 0x8000_0000
  }

  predicate Uint32(v: int) {
    0 <= v < WORD
  }

  function Pow256(k: nat): int
    requires k <= 5
  {
    if k == 0 then 1 else if k == 1 then 0x100 else if k == 2 then 0x1_0000 else if k == 3 then 0x100_0000
    else if k == 4 then 0x1_0000_0000 else 0x100_0000_0000
  }

  /** The least number of bytes that hold `v` in two's complement. */
  function IntSize(v: int): (n: nat)
    requires Int32(v) || Uint32(v)
    ensures 1 <= n <= 5 && -Pow256(n) / 2 <= v < Pow256(n) / 2
    ensures n > 1 ==> v < -Pow256(n - 1) / 2 || Pow256(n - 1) / 2 <= v
  {
    if -0x80 <= v < 0x80 then 1
    else if -0x8000 <= v < 0x8000 then 2
    else if -0x80_0000 <= v < 0x80_0000 then 3
    else if Int32(v) then 4
    else 5
  }

  /** Byte `i` of `n`, most significant first; division rounds down, so this is two's
      complement. */
  function IntByte(v: int, n: nat, i: nat): byte
    requires i < n <= 5
  {
    v / Pow256(n - 1 - i) % 256
  }

  function IntBytes(v: int): seq<byte>
    requires Int32(v) || Uint32(v)
  {
    seq(IntSize(v), i requires 0 <= i < IntSize(v) => IntByte(v, IntSize(v), i))
  }

  // ----- Lengths and headers -----

  /** The value of a length field and the place after it. */
  function ParseLength(data: seq<byte>, at: nat): Option<(int, nat)> {
    if at >= |data| then None
    else if data[at] < ASN_LONG_LEN then Some((data[at], at + 1))
    else
      var k := data[at] - ASN_LONG_LEN;
      if k == 0 || k > 4 || at + 1 + k > |data| then None
      else
        Some((BigEndian(data[at + 1..at + 1 + k]), at + 1 + k))
  }

  /** ntohl of the bytes, shifted down to those that are there. */
  function BigEndian(s: seq<byte>): nat {
    if s == [] then 0 else BigEndian(s[..|s| - 1]) * 256 + s[|s| - 1]
  }

  /** The tag, the start of the contents and their length. */
  function ParseHeader(data: seq<byte>, at: nat, left: int): Option<(byte, nat, int)> {
    if at >= |data| || data[at] % 32 == 31 then None
    else
      var r := ParseLength(data, at + 1);
      if r.None? then None
      else
        var (n, start) := r.value;
        if start - at + n > left || n > MAX_CONTENTS then None else Some((data[at], start, n))
  }

  lemma LengthRoundTrip(data: seq<byte>, at: nat, n: nat)
    requires n <= MAX_LENGTH && Holds(data, at, LengthBytes(n))
    ensures ParseLength(data, at) == Some((n, at + |LengthBytes(n)|))
  {
    var s := LengthBytes(n);
    assert data[at] == data[at..at + |s|][0];
    if n >= 0x80 {
      assert data[at + 1..at + |s|] == data[at..at + |s|][1..] == s[1..];
      BigEndianSmall(s[1..]);
    }
  }

  lemma BigEndianSmall(s: seq<byte>)
    ensures |s| == 1 ==> BigEndian(s) == s[0]
    ensures |s| == 2 ==> BigEndian(s) == 256 * s[0] as int + s[1]
  {
    if |s| == 2 {
      assert s[..1][..0] == [];
    }
  }

  lemma WideLength(data: seq<byte>, at: nat, n: nat)
    requires n <= MAX_LENGTH && Holds(data, at, [0x82, n / 256 % 256, n % 256])
    ensures ParseLength(data, at) == Some((n, at + 3))
  {
    var s := [0x82, n / 256 % 256, n % 256];
    assert data[at] == data[at..at + 3][0];
    assert data[at + 1..at + 3] == data[at..at + 3][1..] == s[1..];
    BigEndianSmall(s[1..]);
  }

  lemma TlvParts(data: seq<byte>, at: nat, tag: byte, body: seq<byte>)
    requires Holds(data, at, Tlv(tag, body)) && |body| <= MAX_LENGTH
    ensures var start := at + 1 + |LengthBytes(|body|)|;
      && at < |data| && data[at] == tag && ParseLength(data, at + 1) == Some((|body|, start))
      && Holds(data, start, body) && |Tlv(tag, body)| == start - at + |body|
  {
    var l := LengthBytes(|body|);
    HoldsSplit(data, at, [tag] + l, body);
    HoldsSplit(data, at, [tag], l);
    HoldsAt(data, at, [tag], 0);
    LengthRoundTrip(data, at + 1, |body|);
  }

  // ----- Building headers -----

  /** What a build routine does: it fits or not, and then only the bytes it built change. */
  twostate predicate Built(data: array<byte>, at: nat, left: int, s: seq<byte>, ok: bool, next: nat, rest: int)
    reads data
  {
    && (ok <==> |s| <= left)
    && (ok ==> next == at + |s| && rest == left - |s| && next <= data.Length && data[at..next] == s)
    && (ok ==> Same(old(data[..]), data[..], at, next))
    && Same(old(data[..]), data[..], at, at + left)
  }

  /** Nothing outside [lo, hi) changed. */
  ghost predicate Same(a: seq<byte>, b: seq<byte>, lo: int, hi: int) {
    |a| == |b| && forall j :: 0 <= j < |a| && !(lo <= j < hi) ==> b[j] == a[j]
  }

  /** asn_build_length. */
  method BuildLength(data: array<byte>, at: nat, left: int, length: nat, truth: bool) returns (ok: bool, next: nat, rest: int)
    requires 0 <= left && at + (if left < 3 then left else 3) <= data.Length
    modifies data
    ensures Built(data, at, left, if truth then LengthBytes(length) else [0x82, length / 256 % 256, length % 256], ok, next, rest)
  {
    next, rest := at, left;
    if truth && length < 0x80 {
      if left < 1 {
        return false, at, left;
      }
      data[at] := length;
      next := at + 1;
    } else if truth && length <= 0xFF {
      if left < 2 {
        return false, at, left;
      }
      data[at] := 0x81;
      data[at + 1] := length;
      next := at + 2;
    } else {
      if left < 3 {
        return false, at, left;
      }
      data[at] := 0x82;
      data[at + 1] := length / 256 % 256;
      data[at + 2] := length % 256;
      next := at + 3;
    }
    ok, rest := true, left - (next - at);
  }

  function HeaderBytes(tag: byte, length: nat, truth: bool): seq<byte> {
    if truth then [tag] + LengthBytes(length) else WideHeader(tag, length)
  }

  /** asn_build_header_with_truth, and asn_build_header when `truth` is false. */
  method BuildHeader(data: array<byte>, at: nat, left: int, tag: byte, length: nat, truth: bool) returns (ok: bool, next: nat, rest: int)
    requires 0 <= left && at + (if left < 4 then left else 4) <= data.Length
    modifies data
    ensures Built(data, at, left, HeaderBytes(tag, length, truth), ok, next, rest)
  {
    if left < 1 {
      return false, at, left;
    }
    data[at] := tag;
    ok, next, rest := BuildLength(data, at + 1, left - 1, length, truth);
    if ok {
      assert data[at..next] == [tag] + data[at + 1..next];
    }
  }

  // ----- Integers -----

  function Shifted(v: int, k: nat): int
    requires k <= 4
  {
    v * Pow256(k) % WORD
  }

  lemma ShiftMore(v: int, k: nat)
    requires k < 4
    ensures Shifted(v, k) * 256 % WORD == Shifted(v, k + 1)
  {
    var q := v * Pow256(k) / WORD;
    assert v * Pow256(k) == q * WORD + Shifted(v, k);
    assert v * Pow256(k + 1) == q * 256 * WORD + Shifted(v, k) * 256;
    ModShift(Shifted(v, k) * 256, q * 256);
  }

  lemma ModShift(x: int, q: int)
    ensures (q * WORD + x) % WORD == x % WORD
  {
  }

  /** The top byte of the shifted word. */
  lemma TopByte(v: int, k: nat)
    requires k < 4
    ensures Shifted(v, k) / 0x100_0000 == v / Pow256(3 - k) % 256
  {
  }

  /** The top nine bits are all equal exactly if the first byte is not needed. */
  lemma TopNine(v: int, n: nat)
    requires Int32(v) && 1 < n <= 4 && -Pow256(n) / 2 <= v < Pow256(n) / 2
    ensures var top := Shifted(v, 4 - n) / 0x80_0000;
      top == 0 || top == 511 <==> -Pow256(n - 1) / 2 <= v < Pow256(n - 1) / 2
  {
  }

  function IntDigits(v: int, n: nat): (s: seq<byte>)
    requires n <= 5
    ensures |s| == n
  {
    seq(n, i requires 0 <= i < n => IntByte(v, n, i))
  }

  /** The loop that writes the top byte of a word and shifts. */
  method PutBytes(data: array<byte>, at: nat, word: int, n: nat, ghost v: int)
    requires n <= 4 && at + n <= data.Length && word == Shifted(v, 4 - n)
    modifies data
    ensures data[at..at + n] == IntDigits(v, n) && Same(old(data[..]), data[..], at, at + n)
  {
    var integer := word;
    var i := 0;
    while i < n
      invariant i <= n && integer == Shifted(v, 4 - n + i) && Same(old(data[..]), data[..], at, at + n)
      invariant forall k :: 0 <= k < i ==> data[at + k] == IntByte(v, n, k)
    {
      TopByte(v, 4 - n + i);
      data[at + i] := integer / 0x100_0000;
      ShiftMore(v, 4 - n + i);
      integer := integer * 256 % WORD;
      i := i + 1;
    }
  }

  /** One piece built after another. */
  lemma TwoParts(d0: seq<byte>, d1: seq<byte>, d2: seq<byte>, at: nat, mid: nat, next: nat, a: seq<byte>, b: seq<byte>)
    requires at <= mid <= next <= |d0| && Same(d0, d1, at, mid) && d1[at..mid] == a && Same(d1, d2, mid, next) && d2[mid..next] == b
    ensures d2[at..next] == a + b && Same(d0, d2, at, next)
  {
    assert d2[at..mid] == d1[at..mid];
    assert d2[at..next] == d2[at..mid] + d2[mid..next];
  }

  lemma SameMore(a: seq<byte>, b: seq<byte>, lo: int, hi: int, hi': int)
    requires Same(a, b, lo, hi) && hi <= hi'
    ensures Same(a, b, lo, hi')
  {
  }

  /** The loop that drops unnecessary bytes off the most significant end. */
  method Significant(v: int) returns (integer: int, size: nat)
    requires Int32(v)
    ensures size == IntSize(v) && integer == Shifted(v, 4 - size)
  {
    integer, size := v % WORD, 4;
    assert integer == Shifted(v, 0);
    while (integer / 0x80_0000 == 0 || integer / 0x80_0000 == 511) && size > 1
      invariant 1 <= size <= 4 && integer == Shifted(v, 4 - size) && -Pow256(size) / 2 <= v < Pow256(size) / 2
    {
      TopNine(v, size);
      ShiftMore(v, 4 - size);
      size, integer := size - 1, integer * 256 % WORD;
    }
    if size > 1 {
      TopNine(v, size);
    }
  }

  /** asn_build_int. */
  method BuildInt(data: array<byte>, at: nat, left: int, tag: byte, v: int) returns (ok: bool, next: nat, rest: int)
    requires 0 <= left && at + left <= data.Length && Int32(v)
    modifies data
    ensures Built(data, at, left, Tlv(tag, IntBytes(v)), ok, next, rest)
  {
    hide Shifted, LengthBytes, IntByte, Same;
    var integer, size := Significant(v);
    assert IntBytes(v) == IntDigits(v, size);
    ghost var d0 := data[..];
    ok, next, rest := BuildHeader(data, at, left, tag, size, true);
    if !ok {
      return;
    }
    ghost var d1, head := data[..], next;
    assert d1[at..head] == data[at..head];
    SameMore(d0, d1, at, head, at + left);
    if rest < size {
      return false, next, rest;
    }
    PutBytes(data, next, integer, size, v);
    next, rest := next + size, rest - size;
    assert data[..][head..next] == data[head..next];
    TwoParts(d0, d1, data[..], at, head, next, [tag] + LengthBytes(size), IntBytes(v));
    SameMore(d0, data[..], at, next, at + left);
    assert data[at..next] == data[..][at..next];
  }

  lemma UnsignedNine(v: int, n: nat)
    requires Uint32(v) && v < 0x8000_0000 && 1 < n <= 4 && v < Pow256(n) / 2
    ensures Shifted(v, 4 - n) / 0x80_0000 == 0 <==> v < Pow256(n - 1) / 2
  {
  }

  lemma FiveDigits(v: int)
    requires 0x8000_0000 <= v < WORD
    ensures IntBytes(v) == [0] + IntDigits(v, 4)
  {
    forall i | 0 <= i < 5 ensures IntBytes(v)[i] == ([0] + IntDigits(v, 4))[i] {
      if i > 0 {
        assert IntByte(v, 5, i) == IntByte(v, 4, i - 1);
      }
    }
  }

  /** The same for an unsigned integer: a null byte goes first if the top bit is set. */
  method SignificantUnsigned(v: int) returns (integer: int, size: nat, addNull: bool)
    requires Uint32(v)
    ensures size == IntSize(v) && addNull == (size == 5) && integer == if addNull then v else Shifted(v, 4 - size)
  {
    integer, size := v, 4;
    assert integer == Shifted(v, 0);
    addNull := integer >= 0x8000_0000;
    if addNull {
      size := 5;
    }
    while integer / 0x80_0000 == 0 && size > 1
      invariant addNull ==> size == 5 && integer == v
      invariant !addNull ==> 1 <= size <= 4 && integer == Shifted(v, 4 - size) && v < Pow256(size) / 2
    {
      UnsignedNine(v, size);
      ShiftMore(v, 4 - size);
      size, integer := size - 1, integer * 256 % WORD;
    }
    if !addNull && size > 1 {
      UnsignedNine(v, size);
    }
  }

  /** asn_build_unsigned_int. */
  method BuildUnsigned(data: array<byte>, at: nat, left: int, tag: byte, v: int) returns (ok: bool, next: nat, rest: int)
    requires 0 <= left && at + left <= data.Length && Uint32(v)
    modifies data
    ensures Built(data, at, left, Tlv(tag, IntBytes(v)), ok, next, rest)
  {
    hide LengthBytes, IntByte, Same;
    var integer, size, addNull := SignificantUnsigned(v);
    assert !addNull ==> IntBytes(v) == IntDigits(v, size);
    ghost var d0 := data[..];
    ok, next, rest := BuildHeader(data, at, left, tag, size, true);
    if !ok {
      return;
    }
    ghost var d1, head := data[..], next;
    assert d1[at..head] == data[at..head];
    SameMore(d0, d1, at, head, at + left);
    if rest < size {
      return false, next, rest;
    }
    rest := rest - size;
    next := PutUnsigned(data, next, integer, size, addNull, v);
    assert data[..][head..next] == data[head..next];
    TwoParts(d0, d1, data[..], at, head, next, [tag] + LengthBytes(|IntBytes(v)|), IntBytes(v));
    SameMore(d0, data[..], at, next, at + left);
    assert data[at..next] == data[..][at..next];
  }

  method PutUnsigned(data: array<byte>, at: nat, integer: int, size: nat, addNull: bool, ghost v: int) returns (next: nat)
    requires Uint32(v) && size == IntSize(v) && addNull == (size == 5) && integer == (if addNull then v else Shifted(v, 4 - size))
    requires at + size <= data.Length
    modifies data
    ensures next == at + size && data[at..next] == IntBytes(v) && Same(old(data[..]), data[..], at, next)
  {
    if addNull {
      data[at] := 0;
      FiveDigits(v);
      PutBytes(data, at + 1, integer, 4, v);
      next := at + 5;
      assert data[at..next] == [data[at]] + data[at + 1..next];
    } else {
      PutBytes(data, at, integer, size, v);
      next := at + size;
    }
  }

  // ----- Any definite length -----

  predicate FormFits(n: int, k: int) {
    0 <= k <= 4 && 0 <= n < if k == 0 then 0x80 else Pow256(k)
  }

  /** A length in the short form, or in the long form with `k` bytes of value. */
  function LengthForm(n: int, k: int): (s: seq<byte>)
    requires FormFits(n, k)
    ensures |s| == 1 + k
  {
    if k == 0 then [n] else [ASN_LONG_LEN + k] + IntDigits(n, k)
  }

  /** Some definite length `n` is at `at`, and the contents start at `start`. */
  ghost predicate LengthAt(data: seq<byte>, at: int, n: int, start: int) {
    exists k :: FormFits(n, k) && start == at + 1 + k && Holds(data, at, LengthForm(n, k))
  }

  lemma {:induction false} DigitsValue(n: nat, k: nat)
    requires k <= 4 && n < Pow256(k)
    ensures BigEndian(IntDigits(n, k)) == n
    decreases k
  {
    if k > 0 {
      DigitsValue(n / 256, k - 1);
      DigitsFront(n, k);
    }
  }

  lemma DigitsFront(n: int, k: nat)
    requires 0 < k <= 4
    ensures IntDigits(n, k) == IntDigits(n / 256, k - 1) + [n % 256]
    ensures IntDigits(n, k)[..k - 1] == IntDigits(n / 256, k - 1) && IntDigits(n, k)[k - 1] == n % 256
  {
    PowersPositive();
    forall i | 0 <= i < k - 1 ensures IntByte(n, k, i) == IntByte(n / 256, k - 1, i) {
      ByteFirst(n, k - 2 - i);
    }
    hide Pow256;
  }

  lemma ByteFirst(n: int, j: nat)
    requires j <= 3
    ensures Pow256(j) > 0 && Pow256(j + 1) > 0 && n / 256 / Pow256(j) == n / Pow256(j + 1)
  {
  }

  lemma {:induction false} ValueDigits(s: seq<byte>)
    requires |s| <= 4
    ensures BigEndian(s) < Pow256(|s|) && IntDigits(BigEndian(s), |s|) == s
    decreases |s|
  {
    if s != [] {
      var front := s[..|s| - 1];
      ValueDigits(front);
      assert BigEndian(s) / 256 == BigEndian(front) && BigEndian(s) % 256 == s[|s| - 1];
      DigitsFront(BigEndian(s), |s|);
      assert s == front + [s[|s| - 1]];
    }
  }

  /** asn_parse_length accepts exactly the definite lengths of at most four bytes of value. */
  lemma LengthExact(data: seq<byte>, at: nat, n: int, start: nat)
    ensures LengthAt(data, at, n, start) <==> ParseLength(data, at) == Some((n, start))
  {
    hide ParseLength, Holds, LengthForm, FormFits;
    if LengthAt(data, at, n, start) {
      var k :| FormFits(n, k) && start == at + 1 + k && Holds(data, at, LengthForm(n, k));
      FormParses(data, at, n, k);
    }
    if ParseLength(data, at) == Some((n, start)) {
      ParsesForm(data, at, n, start);
    }
  }

  lemma FormParses(data: seq<byte>, at: nat, n: int, k: int)
    requires FormFits(n, k) && Holds(data, at, LengthForm(n, k))
    ensures ParseLength(data, at) == Some((n, at + 1 + k))
  {
    HoldsAt(data, at, LengthForm(n, k), 0);
    if k > 0 {
      HoldsSplit(data, at, [ASN_LONG_LEN + k], IntDigits(n, k));
      DigitsValue(n, k);
      assert data[at + 1..at + 1 + k] == IntDigits(n, k);
    }
  }

  lemma ParsesForm(data: seq<byte>, at: nat, n: int, start: nat)
    requires ParseLength(data, at) == Some((n, start))
    ensures LengthAt(data, at, n, start)
  {
    var k := start - at - 1;
    if data[at] < ASN_LONG_LEN {
      assert data[at..at + 1] == [data[at]] == LengthForm(n, 0);
      assert Holds(data, at, LengthForm(n, 0));
    } else {
      var s := data[at + 1..at + 1 + k];
      ValueDigits(s);
      assert FormFits(n, k);
      assert data[at..at + 1 + k] == [data[at]] + s == LengthForm(n, k);
      assert Holds(data, at, LengthForm(n, k));
    }
  }

  /** An object: its tag, where its contents start, and how many bytes they have. */
  ghost predicate ObjectAt(data: seq<byte>, at: int, tag: byte, start: int, n: int) {
    0 <= at < |data| && data[at] == tag && LengthAt(data, at + 1, n, start)
  }

  lemma ObjectPlace(data: seq<byte>, at: int, tag: byte, start: int, n: int)
    requires ObjectAt(data, at, tag, start, n)
    ensures at + 2 <= start <= |data| && n >= 0 && ParseLength(data, at + 1) == Some((n, start))
  {
    var k :| FormFits(n, k) && start == at + 1 + 1 + k && Holds(data, at + 1, LengthForm(n, k));
    LengthExact(data, at + 1, n, start);
  }

  /** What asn_parse_header accepts. */
  ghost predicate HeaderAt(data: seq<byte>, at: int, left: int, tag: byte, start: int, n: int) {
    ObjectAt(data, at, tag, start, n) && tag % 32 != 31 && start - at + n <= left && n <= MAX_CONTENTS
  }

  lemma HeaderExact(data: seq<byte>, at: nat, left: int, tag: byte, start: nat, n: int)
    ensures HeaderAt(data, at, left, tag, start, n) <==> ParseHeader(data, at, left) == Some((tag, start, n))
  {
    LengthExact(data, at + 1, n, start);
  }

  lemma TlvObject(data: seq<byte>, at: nat, tag: byte, body: seq<byte>)
    requires Holds(data, at, Tlv(tag, body)) && |body| <= MAX_LENGTH
    ensures var start := at + 1 + |LengthBytes(|body|)|;
      ObjectAt(data, at, tag, start, |body|) && Holds(data, start, body) && |Tlv(tag, body)| == start - at + |body|
  {
    TlvParts(data, at, tag, body);
    LengthExact(data, at + 1, |body|, at + 1 + |LengthBytes(|body|)|);
  }

  lemma WideObject(data: seq<byte>, at: nat, tag: byte, body: seq<byte>)
    requires Holds(data, at, Wide(tag, body)) && |body| <= MAX_LENGTH
    ensures ObjectAt(data, at, tag, at + 4, |body|) && Holds(data, at + 4, body) && |Wide(tag, body)| == 4 + |body|
  {
    var n := |body|;
    HoldsSplit(data, at, WideHeader(tag, n), body);
    HoldsAt(data, at, WideHeader(tag, n), 0);
    assert WideHeader(tag, n) == [tag] + [0x82, n / 256 % 256, n % 256];
    HoldsSplit(data, at, [tag], [0x82, n / 256 % 256, n % 256]);
    WideLength(data, at + 1, n);
    LengthExact(data, at + 1, n, at + 4);
  }

  // ----- Parsing integers -----

  /** A parsed object: its tag and value, and where the next object starts. */
  datatype Parsed<T> = Parsed(tag: byte, value: T, next: nat, rest: int)

  function TwosComplement(s: seq<byte>): int
    requires 1 <= |s| <= 5
  {
    if s[0] >= 0x80 then BigEndian(s) - Pow256(|s|) else BigEndian(s)
  }

  /** The integer with `n` bytes of contents.  With none, the sign is read off the byte after. */
  function IntValue(data: seq<byte>, start: int, n: int): int
    requires 0 <= start < |data| && 0 <= n <= 5 && start + n <= |data|
  {
    if n == 0 then if data[start] >= 0x80 then -1 else 0 else TwosComplement(data[start..start + n])
  }

  function Signed(word: int): int {
    if word < 0x8000_0000 then word else word - WORD
  }

  /** The bytes shifted in after a sign. */
  function ShiftedIn(s: seq<byte>, sign: bool): int {
    if s == [] then if sign then -1 else 0 else 256 * ShiftedIn(s[..|s| - 1], sign) + s[|s| - 1]
  }

  lemma {:induction false} ShiftedInIs(s: seq<byte>, sign: bool)
    requires |s| <= 5
    ensures ShiftedIn(s, sign) == if sign then BigEndian(s) - Pow256(|s|) else BigEndian(s)
    decreases |s|
  {
    if s != [] {
      ShiftedInIs(s[..|s| - 1], sign);
    }
  }

  lemma WordStep(x: int)
    ensures (x / 256 % WORD) * 256 % WORD + x % 256 == x % WORD
  {
    var y, b := x / 256, x % 256;
    var q, r := y / WORD, y % WORD;
    var k, z := r / 0x100_0000, r % 0x100_0000;
    assert r * 256 == k * WORD + z * 256;
    ModShift(z * 256, k);
    assert x == (q * 256 + k) * WORD + (z * 256 + b);
    ModShift(z * 256 + b, q * 256 + k);
  }

  /** The loop that shifts the bytes in. */
  method TakeBytes(data: seq<byte>, at: nat, n: nat) returns (word: int)
    requires n <= 5 && at + n <= |data| && at < |data|
    ensures word == IntValue(data, at, n) % WORD
  {
    var sign := data[at] >= 0x80;
    word := if sign then WORD - 1 else 0;
    var i := 0;
    while i < n
      invariant i <= n && word == ShiftedIn(data[at..at + i], sign) % WORD
    {
      ByteIn(data, at, i, sign);
      word := word * 256 % WORD + data[at + i];
      i := i + 1;
    }
    ShiftedInIs(data[at..at + n], sign);
  }

  lemma ByteIn(data: seq<byte>, at: nat, i: nat, sign: bool)
    requires at + i < |data|
    ensures (ShiftedIn(data[at..at + i], sign) % WORD) * 256 % WORD + data[at + i] == ShiftedIn(data[at..at + i + 1], sign) % WORD
  {
    var s, t := data[at..at + i], data[at..at + i + 1];
    assert t[..|t| - 1] == s;
    var x := 256 * ShiftedIn(s, sign) + data[at + i];
    assert x / 256 == ShiftedIn(s, sign) && x % 256 == data[at + i];
    WordStep(x);
  }

  lemma IntValueRange(data: seq<byte>, start: nat, n: nat)
    requires start < |data| && n <= 5 && start + n <= |data|
    ensures n <= 4 ==> Int32(IntValue(data, start, n)) && Signed(IntValue(data, start, n) % WORD) == IntValue(data, start, n)
  {
    if 0 < n <= 4 {
      var s := data[start..start + n];
      ValueDigits(s);
      SignPlace(s);
      hide BigEndian, Pow256;
      WordOf(BigEndian(s), n);
    }
  }

  lemma WordOf(b: nat, n: nat)
    requires 1 <= n <= 4 && b < Pow256(n)
    ensures var v := if b >= Pow256(n) / 2 then b - Pow256(n) else b; Int32(v) && Signed(v % WORD) == v
  {
  }

  lemma SignPlace(s: seq<byte>)
    requires 1 <= |s| <= 4
    ensures s[0] >= 0x80 <==> BigEndian(s) >= Pow256(|s|) / 2
    decreases |s|
  {
    if |s| > 1 {
      SignPlace(s[..|s| - 1]);
    } else {
      assert s[..0] == [];
    }
  }

  /** An integer as asn_parse_int reads it; `tight` if it is as it should be written. */
  ghost predicate IntReads(data: seq<byte>, at: int, left: int, p: Parsed<int>, tight: bool) {
    exists start, n ::
      ObjectAt(data, at, p.tag, start, n) && IntFits(data, at, left, start, n) &&
      p == Parsed(p.tag, IntValue(data, start, n), start + n, left - (n + (start - at))) && tight == (n > 0)
  }

  predicate IntFits(data: seq<byte>, at: int, left: int, start: int, n: int) {
    n + (start - at) <= left && 0 <= n <= 4 && 0 <= start < |data| && start + n <= |data|
  }

  /** asn_parse_int: it reads an integer exactly where there is one. */
  method ParseInt(data: seq<byte>, at: nat, left: int) returns (r: Option<Parsed<int>>, ghost tight: bool)
    ensures r.Some? ==> IntReads(data, at, left, r.value, tight)
    ensures forall p, t :: IntReads(data, at, left, p, t) ==> r == Some(p) && t == tight
    ensures r.Some? ==> Int32(r.value.value) && at < r.value.next <= |data| && 0 <= r.value.rest <= left && r.value.tag == data[at]
  {
    hide ParseLength, LengthAt, IntValue;
    r, tight := None, false;
    forall tag, start, n | ObjectAt(data, at, tag, start, n) ensures start >= 0 && ParseLength(data, at + 1) == Some((n, start)) {
      ObjectPlace(data, at, tag, start, n);
    }
    var l := ParseLength(data, at + 1);
    if at >= |data| || l.None? {
      return;
    }
    var (n, start) := l.value;
    LengthExact(data, at + 1, n, start);
    ObjectPlace(data, at, data[at], start, n);
    if n + (start - at) > left || n > 4 || start + n > |data| || start >= |data| {
      return;
    }
    var word := TakeBytes(data, start, n);
    IntValueRange(data, start, n);
    r, tight := Some(Parsed(data[at], Signed(word), start + n, left - (n + (start - at)))), n > 0;
  }

  /** The same for asn_parse_unsigned_int: a fifth byte is accepted if the first is null. */
  ghost predicate UnsignedReads(data: seq<byte>, at: int, left: int, p: Parsed<int>, tight: bool) {
    exists start, n ::
      ObjectAt(data, at, p.tag, start, n) && UnsignedFits(data, at, left, start, n) &&
      p == Parsed(p.tag, IntValue(data, start, n) % WORD, start + n, left - (n + (start - at))) && tight == (n > 0)
  }

  predicate UnsignedFits(data: seq<byte>, at: int, left: int, start: int, n: int) {
    n + (start - at) <= left && 0 <= n <= 5 && 0 <= start < |data| && start + n <= |data| && (n == 5 ==> data[start] == 0)
  }

  method ParseUnsigned(data: seq<byte>, at: nat, left: int) returns (r: Option<Parsed<int>>, ghost tight: bool)
    ensures r.Some? ==> UnsignedReads(data, at, left, r.value, tight)
    ensures forall p, t :: UnsignedReads(data, at, left, p, t) ==> r == Some(p) && t == tight
    ensures r.Some? ==> Uint32(r.value.value) && at < r.value.next <= |data| && 0 <= r.value.rest <= left && r.value.tag == data[at]
  {
    hide ParseLength, LengthAt, IntValue;
    r, tight := None, false;
    forall tag, start, n | ObjectAt(data, at, tag, start, n) ensures start >= 0 && ParseLength(data, at + 1) == Some((n, start)) {
      ObjectPlace(data, at, tag, start, n);
    }
    var l := ParseLength(data, at + 1);
    if at >= |data| || l.None? {
      return;
    }
    var (n, start) := l.value;
    LengthExact(data, at + 1, n, start);
    ObjectPlace(data, at, data[at], start, n);
    if n + (start - at) > left || start + n > |data| || start >= |data| {
      return;
    }
    if n > 5 || (n == 5 && data[start] != 0) {
      return;
    }
    var word := TakeBytes(data, start, n);
    r, tight := Some(Parsed(data[at], word, start + n, left - (n + (start - at)))), n > 0;
  }

  /** What is written for a number is that number. */
  lemma IntBytesValue(v: int)
    requires Int32(v) || Uint32(v)
    ensures |IntBytes(v)| == IntSize(v) && TwosComplement(IntBytes(v)) == v
    ensures (Int32(v) ==> IntSize(v) <= 4) && (IntSize(v) == 5 ==> IntBytes(v)[0] == 0)
  {
    var n, s := IntSize(v), IntBytes(v);
    PowersPositive();
    SignByte(v);
    hide Pow256, IntSize;
    ShiftedPrefix(v, n);
    assert s[..n] == s;
    ShiftedInIs(s, v < 0);
  }

  lemma {:induction false} ShiftedPrefix(v: int, i: nat)
    requires (Int32(v) || Uint32(v)) && i <= IntSize(v)
    ensures Pow256(IntSize(v) - i) > 0 && ShiftedIn(IntBytes(v)[..i], v < 0) == v / Pow256(IntSize(v) - i)
    decreases i
  {
    PowersPositive();
    hide Pow256, IntSize, IntBytes;
    if i == 0 {
      SignByte(v);
    } else {
      ShiftedPrefix(v, i - 1);
      LastOfPrefix(v, i);
      DivideDigit(v, IntSize(v) - i);
    }
  }

  lemma LastOfPrefix(v: int, i: nat)
    requires (Int32(v) || Uint32(v)) && 0 < i <= IntSize(v)
    ensures Pow256(IntSize(v) - i) > 0 && IntBytes(v)[..i][i - 1] == v / Pow256(IntSize(v) - i) % 256
    ensures |IntBytes(v)| == IntSize(v) && IntBytes(v)[..i][..i - 1] == IntBytes(v)[..i - 1]
  {
    PowersPositive();
    hide Pow256, IntSize;
    assert IntBytes(v)[..i][i - 1] == IntByte(v, IntSize(v), i - 1);
  }

  lemma DivideDigit(v: int, k: nat)
    requires k <= 4
    ensures Pow256(k) > 0 && Pow256(k + 1) > 0 && 256 * (v / Pow256(k + 1)) + v / Pow256(k) % 256 == v / Pow256(k)
  {
  }

  lemma PowersPositive()
    ensures Pow256(0) == 1 && forall k :: 0 <= k <= 5 ==> Pow256(k) > 0
  {
  }

  /** The first byte tells the sign. */
  lemma SignByte(v: int)
    requires Int32(v) || Uint32(v)
    ensures IntBytes(v)[0] >= 0x80 <==> v < 0
    ensures v / Pow256(IntSize(v)) == if v < 0 then -1 else 0
  {
  }

  /** An integer that asn_build_int wrote reads as itself. */
  lemma IntReturns(data: seq<byte>, at: nat, left: int, tag: byte, v: int)
    requires Int32(v) && Holds(data, at, Tlv(tag, IntBytes(v))) && |Tlv(tag, IntBytes(v))| <= left
    ensures var n := |Tlv(tag, IntBytes(v))|; IntReads(data, at, left, Parsed(tag, v, at + n, left - n), true)
  {
    hide Tlv, LengthBytes, IntBytes, ObjectAt, TwosComplement;
    IntBytesValue(v);
    TlvObject(data, at, tag, IntBytes(v));
    var start := at + 1 + |LengthBytes(|IntBytes(v)|)|;
    assert data[start..start + |IntBytes(v)|] == IntBytes(v);
    assert IntValue(data, start, |IntBytes(v)|) == v;
  }

  lemma UnsignedReturns(data: seq<byte>, at: nat, left: int, tag: byte, v: int)
    requires Uint32(v) && Holds(data, at, Tlv(tag, IntBytes(v))) && |Tlv(tag, IntBytes(v))| <= left
    ensures var n := |Tlv(tag, IntBytes(v))|; UnsignedReads(data, at, left, Parsed(tag, v, at + n, left - n), true)
  {
    hide Tlv, LengthBytes, IntBytes, ObjectAt, TwosComplement;
    IntBytesValue(v);
    TlvObject(data, at, tag, IntBytes(v));
    var start := at + 1 + |LengthBytes(|IntBytes(v)|)|;
    assert data[start..start + |IntBytes(v)|] == IntBytes(v);
    assert IntValue(data, start, |IntBytes(v)|) == v;
    HoldsAt(data, start, IntBytes(v), 0);
  }

  // ----- Strings -----

  /** asn_build_string. */
  method BuildString(data: array<byte>, at: nat, left: int, tag: byte, s: seq<byte>) returns (ok: bool, next: nat, rest: int)
    requires 0 <= left && at + left <= data.Length
    modifies data
    ensures Built(data, at, left, Tlv(tag, s), ok, next, rest)
  {
    hide LengthBytes, Same;
    ghost var d0 := data[..];
    ok, next, rest := BuildHeader(data, at, left, tag, |s|, true);
    if !ok {
      return;
    }
    ghost var d1, head := data[..], next;
    assert d1[at..head] == data[at..head];
    SameMore(d0, d1, at, head, at + left);
    if rest < |s| {
      return false, next, rest;
    }
    CopyIn(data, next, s);
    next, rest := next + |s|, rest - |s|;
    assert data[..][head..next] == data[head..next];
    TwoParts(d0, d1, data[..], at, head, next, [tag] + LengthBytes(|s|), s);
    SameMore(d0, data[..], at, next, at + left);
    assert data[at..next] == data[..][at..next];
  }

  /** memcpy. */
  method CopyIn(data: array<byte>, at: nat, s: seq<byte>)
    requires at + |s| <= data.Length
    modifies data
    ensures data[at..at + |s|] == s && Same(old(data[..]), data[..], at, at + |s|)
  {
    for i := 0 to |s|
      invariant Same(old(data[..]), data[..], at, at + |s|) && forall k :: 0 <= k < i ==> data[at + k] == s[k]
    {
      data[at + i] := s[i];
    }
  }

  /** asn_parse_string into a buffer of `room` bytes. */
  function ParseString(data: seq<byte>, at: nat, left: int, room: int): (r: Option<Parsed<seq<byte>>>)
    ensures r.Some? ==> at < r.value.next <= |data| && 0 <= r.value.rest <= left && r.value.tag == data[at]
  {
    var l := ParseLength(data, at + 1);
    if at >= |data| || l.None? then None
    else
      var (n, start) := l.value;
      if n + (start - at) > left || n > room || start + n > |data| then None
      else Some(Parsed(data[at], data[start..start + n], start + n, left - (n + (start - at))))
  }

  /** A string as it is read into `room` bytes. */
  ghost predicate StringReads(data: seq<byte>, at: int, left: int, room: int, p: Parsed<seq<byte>>) {
    exists start, n ::
      ObjectAt(data, at, p.tag, start, n) && n + (start - at) <= left && 0 <= n <= room && 0 <= start && start + n <= |data| &&
      p == Parsed(p.tag, data[start..start + n], start + n, left - (n + (start - at)))
  }

  /** asn_parse_string reads a string exactly where there is one that fits. */
  lemma StringExact(data: seq<byte>, at: nat, left: int, room: int, p: Parsed<seq<byte>>)
    ensures StringReads(data, at, left, room, p) <==> ParseString(data, at, left, room) == Some(p)
  {
    hide ParseLength, LengthAt;
    if StringReads(data, at, left, room, p) {
      var start, n :| ObjectAt(data, at, p.tag, start, n) && n + (start - at) <= left && 0 <= n <= room && 0 <= start && start + n <= |data| &&
        p == Parsed(p.tag, data[start..start + n], start + n, left - (n + (start - at)));
      ObjectPlace(data, at, p.tag, start, n);
    }
    if ParseString(data, at, left, room) == Some(p) {
      var (n, start) := ParseLength(data, at + 1).value;
      LengthExact(data, at + 1, n, start);
      ObjectPlace(data, at, p.tag, start, n);
      assert ObjectAt(data, at, p.tag, start, n);
      assert n + (start - at) <= left && 0 <= n <= room && start + n <= |data|;
      assert p == Parsed(p.tag, data[start..start + n], start + n, left - (n + (start - at)));
      assert StringReads(data, at, left, room, p);
    }
  }

  lemma StringReturns(data: seq<byte>, at: nat, left: int, room: int, tag: byte, s: seq<byte>)
    requires Holds(data, at, Tlv(tag, s)) && |Tlv(tag, s)| <= left && |s| <= room && |s| <= MAX_LENGTH
    ensures StringReads(data, at, left, room, Parsed(tag, s, at + |Tlv(tag, s)|, left - |Tlv(tag, s)|))
  {
    hide Tlv, ObjectAt, LengthBytes;
    TlvObject(data, at, tag, s);
    var start := at + 1 + |LengthBytes(|s|)|;
    assert data[start..start + |s|] == s;
  }
}
