/**
 The message body on the wire: the seven fields of `BaseProtocolBuf` in the Protocol Buffers
 encoding (its sections "Base 128 Varints" and "Length-Delimited Records"), the generated
 serialiser, its size prediction and the generated parser.
 */
module ProtoBody {
  import opened Basics

  // ---------------------------------------------------------------- varints

  function Varint(v: nat): (r: seq<byte>)
    ensures r != []
  {
    if v < 128 then [v as byte] else [(v % 128 + 128) as byte] + Varint(v / 128)
  }

  datatype Read<T> = Fail | Ok(value: T, rest: seq<byte>)

  // At most `limit` bytes, least significant group first.
  function ReadVarint(bytes: seq<byte>, limit: nat): (r: Read<nat>)
    ensures r.Ok? ==> |r.rest| < |bytes|
    decreases limit
  {
    if bytes == [] || limit == 0 then Fail
    else if bytes[0] < 128 then Ok(bytes[0] as nat, bytes[1..])
    else
      match ReadVarint(bytes[1..], limit - 1)
      case Fail => Fail
      case Ok(v, rest) => Ok((bytes[0] - 128) as nat + 128 * v, rest)
  }

  // A varint may be 10 bytes long; uint32 fields keep its low 32 bits. Tags take at most 5 bytes,
  // and so do sizes, which stay below 2^31.
  function ReadVarint32(bytes: seq<byte>): (r: Read<nat>)
    ensures r.Ok? ==> |r.rest| < |bytes| && r.value < UINT32_BOUND
  {
    match ReadVarint(bytes, 10)
    case Fail => Fail
    case Ok(v, rest) => Ok(v % UINT32_BOUND, rest)
  }

  function ReadTag(bytes: seq<byte>): (r: Read<nat>)
    ensures r.Ok? ==> |r.rest| < |bytes|
  {
    match ReadVarint(bytes, 5)
    case Fail => Fail
    case Ok(v, rest) => Ok(v % UINT32_BOUND, rest)
  }

  function ReadString(bytes: seq<byte>): (r: Read<seq<byte>>)
    ensures r.Ok? ==> |r.rest| < |bytes| && |r.value| < |bytes|
  {
    match ReadVarint(bytes, 5)
    case Fail => Fail
    case Ok(n, rest) =>
      if n < INT32_BOUND && n <= |rest| then Ok(rest[..n], rest[n..]) else Fail
  }

  lemma {:induction false} VarintRoundTrip(v: nat, rest: seq<byte>, limit: nat)
    requires |Varint(v)| <= limit
    ensures ReadVarint(Varint(v) + rest, limit) == Ok(v, rest)
    decreases limit
  {
    if v < 128 {
      assert (Varint(v) + rest)[1..] == rest;
    } else {
      VarintRoundTrip(v / 128, rest, limit - 1);
      assert (Varint(v) + rest)[1..] == Varint(v / 128) + rest;
    }
  }

  // What a varint is ("Base 128 Varints"): seven bits a byte, least significant first, and a set top
  // bit on every byte but the last.
  predicate Groups(groups: seq<nat>) {
    groups != [] && forall k :: 0 <= k < |groups| ==> groups[k] < 128
  }

  function GroupBytes(groups: seq<nat>): (r: seq<byte>)
    requires Groups(groups)
    ensures |r| == |groups|
    ensures forall k :: 0 <= k < |r| ==> r[k] as nat == groups[k] + if k == |r| - 1 then 0 else 128
  {
    seq(|groups|, k requires 0 <= k < |groups| =>
      (groups[k] + if k == |groups| - 1 then 0 else 128) as byte)
  }

  function Pow128(k: nat): nat {
    if k == 0 then 1 else 128 * Pow128(k - 1)
  }

  function GroupValue(groups: seq<nat>): nat {
    if groups == [] then 0
    else GroupValue(groups[..|groups| - 1]) + groups[|groups| - 1] * Pow128(|groups| - 1)
  }

  lemma {:induction false} FirstGroup(g: nat, groups: seq<nat>)
    ensures GroupValue([g] + groups) == g + 128 * GroupValue(groups)
    decreases |groups|
  {
    var all := [g] + groups;
    if groups == [] {
      assert all[..0] == [] && GroupValue([]) == 0 && Pow128(0) == 1 && all == [g];
    } else {
      var n := |groups| - 1;
      FirstGroup(g, groups[..n]);
      assert all[..n + 1] == [g] + groups[..n];
      TimesPower(groups[n], n);
    }
  }

  lemma TimesPower(v: nat, n: nat)
    ensures v * Pow128(n + 1) == 128 * (v * Pow128(n))
  {
  }

  // Any varint is read, however it is padded, if it is not too long.
  lemma {:induction false} ReadVarintExactly(groups: seq<nat>, rest: seq<byte>, limit: nat)
    requires Groups(groups)
    ensures ReadVarint(GroupBytes(groups) + rest, limit) ==
            if |groups| <= limit then Ok(GroupValue(groups), rest) else Fail
    decreases |groups|
  {
    FirstGroupByte(groups, rest);
    if 1 < |groups| && limit != 0 {
      ReadVarintExactly(groups[1..], rest, limit - 1);
    }
  }

  lemma {:induction false} FirstGroupByte(groups: seq<nat>, rest: seq<byte>)
    requires Groups(groups)
    ensures var bytes := GroupBytes(groups) + rest;
            && bytes != [] && bytes[0] as nat == groups[0] + (if |groups| == 1 then 0 else 128)
            && bytes[1..] == (if |groups| == 1 then [] else GroupBytes(groups[1..])) + rest
            && GroupValue(groups) == groups[0] + 128 * GroupValue(groups[1..])
  {
    FirstGroup(groups[0], groups[1..]);
    assert [groups[0]] + groups[1..] == groups;
    assert (GroupBytes(groups) + rest)[1..] == GroupBytes(groups)[1..] + rest;
    if 1 < |groups| {
      assert GroupBytes(groups)[1..] == GroupBytes(groups[1..]);
    }
  }

  // One whose bytes run out is not.
  lemma {:induction false} ReadVarintCut(cut: seq<byte>, limit: nat)
    requires forall k :: 0 <= k < |cut| ==> 128 <= cut[k]
    ensures ReadVarint(cut, limit) == Fail
    decreases |cut|
  {
    if cut != [] && limit != 0 { ReadVarintCut(cut[1..], limit - 1); }
  }

  // A non-zero varint has no zero byte: its last group is the most significant and not zero.
  lemma {:induction false} VarintHasNoZero(v: nat)
    ensures v != 0 <==> 0 !in Varint(v)
  {
    if v >= 128 {
      VarintHasNoZero(v / 128);
      assert v / 128 != 0;
    }
  }

  function Log2(v: nat): nat
    requires 1 <= v
  {
    if v == 1 then 0 else 1 + Log2(v / 2)
  }

  // VarintSize32: the closed form the size prediction uses instead of counting groups.
  function VarintSize(v: nat): nat {
    (Log2(if v == 0 then 1 else v) * 9 + 73) / 64
  }

  lemma {:induction false} Log2Small(v: nat, bits: nat)
    requires 1 <= v && bits <= 7 && v < [1, 2, 4, 8, 16, 32, 64, 128][bits]
    ensures Log2(v) < bits
    decreases bits
  {
    if v != 1 {
      Log2Small(v / 2, bits - 1);
    }
  }

  // One group fewer is seven halvings fewer.
  lemma {:induction false} Log2OfGroup(v: nat)
    requires 128 <= v
    ensures Log2(v) == 7 + Log2(v / 128)
  {
    var a := v / 2;
    var b := a / 2;
    var c := b / 2;
    var d := c / 2;
    var e := d / 2;
    var f := e / 2;
    assert 2 <= f && f / 2 == v / 128;
    assert Log2(f) == 1 + Log2(v / 128);
    assert Log2(d) == 2 + Log2(f);
    assert Log2(b) == 2 + Log2(d);
  }

  // A varint of k bytes is a number whose logarithm lies in the k-th group.
  lemma {:induction false} VarintGroups(v: nat)
    requires 1 <= v
    ensures 7 * (|Varint(v)| - 1) <= Log2(v) < 7 * |Varint(v)|
  {
    if v < 128 {
      Log2Small(v, 7);
    } else {
      Log2OfGroup(v);
      VarintGroups(v / 128);
    }
  }

  lemma {:induction false} Log2Of32Bits(v: nat)
    requires 1 <= v < UINT32_BOUND
    ensures Log2(v) < 32
  {
    var d := v / 0x1000_0000;
    if v < 0x80 { Log2Small(v, 7); }
    else if v < 0x4000 { Log2OfGroup(v); Log2Small(v / 0x80, 7); }
    else if v < 0x20_0000 { Log2OfGroup(v); Log2OfGroup(v / 0x80); Log2Small(v / 0x80 / 0x80, 7); }
    else if v < 0x1000_0000 {
      Log2OfGroup(v); Log2OfGroup(v / 0x80); Log2OfGroup(v / 0x80 / 0x80);
      Log2Small(v / 0x80 / 0x80 / 0x80, 7);
    }
    else {
      Log2OfGroup(v); Log2OfGroup(v / 0x80); Log2OfGroup(v / 0x80 / 0x80); Log2OfGroup(v / 0x80 / 0x80 / 0x80);
      Log2Small(v / 0x80 / 0x80 / 0x80 / 0x80, 4);
    }
  }

  lemma {:induction false} VarintSizeIsLength(v: nat)
    requires v < UINT32_BOUND
    ensures VarintSize(v) == |Varint(v)| <= 5
  {
    if v != 0 {
      VarintGroups(v);
      Log2Of32Bits(v);
    }
  }

  // ---------------------------------------------------------------- UTF-8

  predicate Continuation(b: byte) {
    0x80 <= b <= 0xBF
  }

  // The byte sequences of section 4 of RFC 3629.
  predicate ValidUtf8(s: seq<byte>)
    decreases |s|
  {
    s == [] ||
    (var b := s[0];
     if b <= 0x7F then ValidUtf8(s[1..])
     else if 0xC2 <= b <= 0xDF then |s| >= 2 && Continuation(s[1]) && ValidUtf8(s[2..])
     else if 0xE0 <= b <= 0xEF then
       && |s| >= 3 && Continuation(s[1]) && Continuation(s[2])
       && (b == 0xE0 ==> 0xA0 <= s[1]) && (b == 0xED ==> s[1] <= 0x9F)
       && ValidUtf8(s[3..])
     else if 0xF0 <= b <= 0xF4 then
       && |s| >= 4 && Continuation(s[1]) && Continuation(s[2]) && Continuation(s[3])
       && (b == 0xF0 ==> 0x90 <= s[1]) && (b == 0xF4 ==> s[1] <= 0x8F)
       && ValidUtf8(s[4..])
     else false)
  }

  // What UTF-8 is (section 3 of RFC 3629): the code points but for the surrogates, each in as few bytes
  // as it takes, with six bits in every byte but the first.
  predicate Scalar(cp: nat) {
    cp < 0xD800 || 0xE000 <= cp <= 0x10FFFF
  }

  function SixBits(v: nat): byte {
    (0x80 + v % 64) as byte
  }

  function EncodePoint(cp: nat): (r: seq<byte>)
    requires Scalar(cp)
    ensures r != []
  {
    if cp < 0x80 then [cp as byte]
    else if cp < 0x800 then [(0xC0 + cp / 64) as byte, SixBits(cp)]
    else if cp < 0x1_0000 then [(0xE0 + cp / 64 / 64) as byte, SixBits(cp / 64), SixBits(cp)]
    else [(0xF0 + cp / 64 / 64 / 64) as byte, SixBits(cp / 64 / 64), SixBits(cp / 64), SixBits(cp)]
  }

  predicate AllScalars(cps: seq<nat>) {
    forall k :: 0 <= k < |cps| ==> Scalar(cps[k])
  }

  function EncodePoints(cps: seq<nat>): seq<byte>
    requires AllScalars(cps)
  {
    if cps == [] then [] else EncodePoint(cps[0]) + EncodePoints(cps[1..])
  }

  lemma {:induction false} PointThenRest(cp: nat, rest: seq<byte>)
    requires Scalar(cp) && ValidUtf8(rest)
    ensures ValidUtf8(EncodePoint(cp) + rest)
  {
    var s := EncodePoint(cp) + rest;
    if cp < 0x80 {
      assert s[1..] == rest;
    } else if cp < 0x800 {
      assert s[2..] == rest;
    } else if cp < 0x1_0000 {
      assert s[3..] == rest;
    } else {
      assert s[4..] == rest;
    }
  }

  lemma {:induction false} PointsAreValid(cps: seq<nat>)
    requires AllScalars(cps)
    ensures ValidUtf8(EncodePoints(cps))
  {
    if cps != [] {
      PointsAreValid(cps[1..]);
      PointThenRest(cps[0], EncodePoints(cps[1..]));
    }
  }

  // Putting six bits behind a number, and taking them off again.
  lemma Shifted(high: nat, low: nat)
    requires low < 64
    ensures (64 * high + low) / 64 == high && (64 * high + low) % 64 == low
  {
  }

  function Low(b: byte): nat
    requires Continuation(b)
  {
    (b - 0x80) as nat
  }

  lemma {:induction false} TwoBytes(a: byte, b: byte)
    requires 0xC2 <= a <= 0xDF && Continuation(b)
    ensures exists cp :: Scalar(cp) && EncodePoint(cp) == [a, b]
  {
    var cp := 64 * (a - 0xC0) as nat + Low(b);
    Shifted((a - 0xC0) as nat, Low(b));
    assert Scalar(cp) && EncodePoint(cp) == [a, b];
  }

  lemma {:induction false} ThreeBytes(a: byte, b: byte, c: byte)
    requires 0xE0 <= a <= 0xEF && Continuation(b) && Continuation(c)
    requires (a == 0xE0 ==> 0xA0 <= b) && (a == 0xED ==> b <= 0x9F)
    ensures exists cp :: Scalar(cp) && EncodePoint(cp) == [a, b, c]
  {
    var high := 64 * (a - 0xE0) as nat + Low(b);
    var cp := 64 * high + Low(c);
    Shifted((a - 0xE0) as nat, Low(b));
    Shifted(high, Low(c));
    assert Scalar(cp) && EncodePoint(cp) == [a, b, c];
  }

  lemma {:induction false} FourBytes(a: byte, b: byte, c: byte, d: byte)
    requires 0xF0 <= a <= 0xF4 && Continuation(b) && Continuation(c) && Continuation(d)
    requires (a == 0xF0 ==> 0x90 <= b) && (a == 0xF4 ==> b <= 0x8F)
    ensures exists cp :: Scalar(cp) && EncodePoint(cp) == [a, b, c, d]
  {
    var top := 64 * (a - 0xF0) as nat + Low(b);
    var high := 64 * top + Low(c);
    var cp := 64 * high + Low(d);
    Shifted((a - 0xF0) as nat, Low(b));
    Shifted(top, Low(c));
    Shifted(high, Low(d));
    assert Scalar(cp) && EncodePoint(cp) == [a, b, c, d];
  }

  // A valid text begins with a code point and goes on with a valid text.
  lemma {:induction false} FirstPoint(s: seq<byte>) returns (cp: nat, rest: seq<byte>)
    requires ValidUtf8(s) && s != []
    ensures Scalar(cp) && s == EncodePoint(cp) + rest && ValidUtf8(rest)
  {
    var b := s[0];
    if b <= 0x7F {
      cp, rest := b as nat, s[1..];
      assert EncodePoint(cp) == [b];
    } else if b <= 0xDF {
      TwoBytes(s[0], s[1]);
      cp :| Scalar(cp) && EncodePoint(cp) == [s[0], s[1]];
      rest := s[2..];
    } else if b <= 0xEF {
      ThreeBytes(s[0], s[1], s[2]);
      cp :| Scalar(cp) && EncodePoint(cp) == [s[0], s[1], s[2]];
      rest := s[3..];
    } else {
      FourBytes(s[0], s[1], s[2], s[3]);
      cp :| Scalar(cp) && EncodePoint(cp) == [s[0], s[1], s[2], s[3]];
      rest := s[4..];
    }
  }

  lemma {:induction false} PointsOf(s: seq<byte>) returns (cps: seq<nat>)
    requires ValidUtf8(s)
    ensures AllScalars(cps) && s == EncodePoints(cps)
    decreases |s|
  {
    if s == [] {
      cps := [];
    } else {
      var cp, rest := FirstPoint(s);
      var later := PointsOf(rest);
      cps := [cp] + later;
      assert cps[1..] == later;
    }
  }

  // The byte ranges that the check goes by accept exactly the encodings of code points.
  lemma Utf8Exactly(s: seq<byte>)
    ensures ValidUtf8(s) <==> exists cps :: AllScalars(cps) && s == EncodePoints(cps)
  {
    if ValidUtf8(s) {
      var cps := PointsOf(s);
      assert AllScalars(cps) && s == EncodePoints(cps);
    }
    forall cps | AllScalars(cps) && s == EncodePoints(cps) ensures ValidUtf8(s) {
      PointsAreValid(cps);
    }
  }

  // ---------------------------------------------------------------- the message

  datatype Body = Body(
    magic: nat, version: nat, msgType: nat, reqId: nat, dataLen: nat,
    srvName: Option<seq<byte>>, data: seq<byte>)
  {
    predicate Valid() {
      && magic < UINT32_BOUND && version < UINT32_BOUND && msgType < UINT32_BOUND
      && reqId < UINT32_BOUND && dataLen < UINT32_BOUND
      && |data| < INT32_BOUND && (srvName.Some? ==> |srvName.value| < INT32_BOUND)
    }
  }

  const DEFAULT: Body := Body(0, 0, 0, 0, 0, None, [])

  // A field as it is written: a number with a uint32 or with bytes.
  datatype Field = UInt(num: nat, value: nat) | Bytes(num: nat, bytes: seq<byte>) {
    predicate Valid() {
      && (UInt? ==> 1 <= num <= 5 && value < UINT32_BOUND)
      && (Bytes? ==> 6 <= num <= 7 && |bytes| < INT32_BOUND)
    }

    // What the parser insists on: the service name is a UTF-8 string.
    predicate Acceptable() {
      Bytes? && num == 6 ==> ValidUtf8(bytes)
    }

    function Encode(): (r: seq<byte>)
      requires Valid()
    {
      if UInt? then [(8 * num) as byte] + Varint(value) else [(8 * num + 2) as byte] + (Varint(|bytes|) + bytes)
    }
  }

  predicate AllValid(fields: seq<Field>) {
    forall f :: f in fields ==> f.Valid()
  }

  function EncodeAll(fields: seq<Field>): seq<byte>
    requires AllValid(fields)
  {
    if fields == [] then [] else fields[0].Encode() + EncodeAll(fields[1..])
  }

  function IfNonZero(num: nat, value: nat): seq<Field> {
    if value != 0 then [UInt(num, value)] else []
  }

  function NumberFields(m: Body): (fields: seq<Field>)
    ensures m.Valid() ==> AllValid(fields)
  {
    IfNonZero(1, m.magic) + IfNonZero(2, m.version) + IfNonZero(3, m.msgType) + IfNonZero(4, m.reqId) +
    IfNonZero(5, m.dataLen)
  }

  function NameField(m: Body): (fields: seq<Field>)
    ensures m.Valid() ==> AllValid(fields)
  {
    if m.srvName.Some? then [Bytes(6, m.srvName.value)] else []
  }

  function DataField(m: Body): (fields: seq<Field>)
    ensures m.Valid() ==> AllValid(fields)
  {
    if m.data != [] then [Bytes(7, m.data)] else []
  }

  // The fields that differ from the default, in field order.
  function Serialize(m: Body): seq<byte>
    requires m.Valid()
  {
    EncodeAll(NumberFields(m)) + (EncodeAll(NameField(m)) + EncodeAll(DataField(m)))
  }

  // ---------------------------------------------------------------- the parser

  function SetField(m: Body, f: Field): Body {
    match f
    case UInt(num, v) =>
      if num == 1 then m.(magic := v)
      else if num == 2 then m.(version := v)
      else if num == 3 then m.(msgType := v)
      else if num == 4 then m.(reqId := v)
      else m.(dataLen := v)
    case Bytes(num, s) =>
      if num == 6 then m.(srvName := Some(s)) else m.(data := s)
  }

  // How deep groups may be nested.
  const MAX_DEPTH: nat := 100

  // UnknownFieldParse: skip by wire type.
  function SkipUnknown(num: nat, wireType: nat, bytes: seq<byte>, depth: nat): (r: Read<()>)
    ensures r.Ok? ==> |r.rest| <= |bytes|
    decreases |bytes|, depth
  {
    if num == 0 then Fail
    else if wireType == 0 then
      match ReadVarint(bytes, 10) case Fail => Fail case Ok(_, rest) => Ok((), rest)
    else if wireType == 1 then
      if |bytes| < 8 then Fail else Ok((), bytes[8..])
    else if wireType == 2 then
      match ReadString(bytes) case Fail => Fail case Ok(_, rest) => Ok((), rest)
    else if wireType == 3 then
      if depth == 0 then Fail else SkipGroup(num, bytes, depth - 1)
    else if wireType == 5 then
      if |bytes| < 4 then Fail else Ok((), bytes[4..])
    else Fail
  }

  // The fields of a group, up to the end tag with the group's own number.
  function SkipGroup(num: nat, bytes: seq<byte>, depth: nat): (r: Read<()>)
    ensures r.Ok? ==> |r.rest| <= |bytes|
    decreases |bytes|, depth
  {
    match ReadTag(bytes)
    case Fail => Fail
    case Ok(tag, rest) =>
      if tag == 0 then Fail
      else if tag % 8 == 4 then if tag / 8 == num then Ok((), rest) else Fail
      else
        match SkipUnknown(tag / 8, tag % 8, rest, depth)
        case Fail => Fail
        case Ok(_, rest) => SkipGroup(num, rest, depth)
  }

  predicate NumberTag(tag: nat) {
    tag == 8 || tag == 16 || tag == 24 || tag == 32 || tag == 40
  }

  // How a parse ends. The caller uses the message in any case.
  datatype Parsed =
    | Whole(m: Body)             // at the end of the input
    | Stopped(m: Body)           // the parser gave up, with the message as it stands
    | Torn(m: Body, field: nat)  // the input ran out inside this field (0: inside a tag); what the
                                 // field then holds is up to the library, the others are as in m

  datatype Turn = Next(m: Body, rest: seq<byte>) | Last(end: Parsed)

  // One turn of the parse loop. The name is stored before it is found not to be UTF-8.
  function ParseOne(m: Body, bytes: seq<byte>): (r: Turn)
    requires bytes != []
    ensures r.Next? ==> |r.rest| < |bytes|
  {
    match ReadTag(bytes)
    case Fail => Last(Torn(m, 0))
    case Ok(tag, rest) =>
      if NumberTag(tag) then
        match ReadVarint32(rest)
        case Fail => Last(Torn(m, tag / 8))
        case Ok(v, rest) => Next(SetField(m, UInt(tag / 8, v)), rest)
      else if tag == 50 || tag == 58 then
        match ReadString(rest)
        case Fail => Last(Torn(m, tag / 8))
        case Ok(s, rest) =>
          var m' := SetField(m, Bytes(tag / 8, s));
          if tag == 50 && !ValidUtf8(s) then Last(Stopped(m')) else Next(m', rest)
      else if tag == 0 || tag % 8 == 4 then Last(Stopped(m))
      else
        match SkipUnknown(tag / 8, tag % 8, rest, MAX_DEPTH)
        case Fail => Last(Stopped(m))
        case Ok(_, rest) => Next(m, rest)
  }

  function Parse(m: Body, bytes: seq<byte>): Parsed
    decreases |bytes|
  {
    if bytes == [] then Whole(m) else
      match ParseOne(m, bytes)
      case Last(end) => end
      case Next(m', rest) => Parse(m', rest)
  }

  function SetAll(m: Body, fields: seq<Field>): Body
    decreases |fields|
  {
    if fields == [] then m else SetAll(SetField(m, fields[0]), fields[1..])
  }

  // ---------------------------------------------------------------- round trip

  lemma {:induction false} ReadTagOf(tag: nat, payload: seq<byte>)
    requires tag < 128
    ensures ReadTag([tag as byte] + payload) == Ok(tag, payload)
  {
    assert ([tag as byte] + payload)[1..] == payload;
  }

  lemma {:induction false} NumberTurn(m: Body, num: nat, payload: seq<byte>)
    requires 1 <= num <= 5 && ReadVarint32(payload).Ok?
    ensures var v := ReadVarint32(payload);
            ParseOne(m, [(8 * num) as byte] + payload) == Next(SetField(m, UInt(num, v.value)), v.rest)
  {
    ReadTagOf(8 * num, payload);
    assert 8 * num / 8 == num && 8 * num % 8 == 0;
  }

  lemma {:induction false} ReadNumberOf(v: nat, rest: seq<byte>)
    requires v < UINT32_BOUND
    ensures ReadVarint32(Varint(v) + rest) == Ok(v, rest)
  {
    VarintSizeIsLength(v);
    VarintRoundTrip(v, rest, 10);
    assert v % UINT32_BOUND == v;
  }

  lemma {:induction false} ParseOneNumber(m: Body, f: Field, rest: seq<byte>)
    requires f.Valid() && f.UInt?
    ensures f.Encode() != []
    ensures ParseOne(m, f.Encode() + rest) == Next(SetField(m, f), rest)
  {
    var payload := Varint(f.value) + rest;
    ReadNumberOf(f.value, rest);
    NumberTurn(m, f.num, payload);
    var tag := [(8 * f.num) as byte];
    assert f.Encode() == tag + Varint(f.value);
    Associate(tag, Varint(f.value), rest);
  }

  lemma {:induction false} Regroup(tag: byte, a: seq<byte>, b: seq<byte>, c: seq<byte>)
    ensures ([tag] + (a + b)) + c == [tag] + (a + (b + c))
  {
  }

  lemma {:induction false} StringTurn(m: Body, tag: nat, payload: seq<byte>)
    requires (tag == 50 || tag == 58) && ReadString(payload).Ok?
    ensures var s := ReadString(payload).value;
            var m' := SetField(m, Bytes(tag / 8, s));
            ParseOne(m, [tag as byte] + payload) ==
            if tag == 50 && !ValidUtf8(s) then Last(Stopped(m')) else Next(m', ReadString(payload).rest)
  {
    ReadTagOf(tag, payload);
  }

  lemma {:induction false} ParseOneString(m: Body, f: Field, rest: seq<byte>)
    requires f.Valid() && f.Bytes?
    ensures f.Encode() != []
    ensures f.Acceptable() ==> ParseOne(m, f.Encode() + rest) == Next(SetField(m, f), rest)
    ensures !f.Acceptable() ==> ParseOne(m, f.Encode() + rest) == Last(Stopped(SetField(m, f)))
  {
    var tag := if f.num == 6 then 50 else 58;
    var payload := Varint(|f.bytes|) + (f.bytes + rest);
    ReadStringOf(f.bytes, rest);
    StringTurn(m, tag, payload);
    Regroup(tag as byte, Varint(|f.bytes|), f.bytes, rest);
    assert f.Encode() == [tag as byte] + (Varint(|f.bytes|) + f.bytes);
  }

  lemma {:induction false} ParseOneField(m: Body, f: Field, rest: seq<byte>)
    requires f.Valid()
    ensures f.Encode() != []
    ensures f.Acceptable() ==> ParseOne(m, f.Encode() + rest) == Next(SetField(m, f), rest)
    ensures !f.Acceptable() ==> ParseOne(m, f.Encode() + rest) == Last(Stopped(SetField(m, f)))
  {
    if f.UInt? { ParseOneNumber(m, f, rest); } else { ParseOneString(m, f, rest); }
  }

  lemma {:induction false} ParseTurn(m: Body, f: Field, rest: seq<byte>)
    requires f.Valid()
    ensures var m' := SetField(m, f);
            Parse(m, f.Encode() + rest) == if f.Acceptable() then Parse(m', rest) else Stopped(m')
  {
    ParseOneField(m, f, rest);
  }

  lemma {:induction false} ReadStringOf(s: seq<byte>, rest: seq<byte>)
    requires |s| < INT32_BOUND
    ensures ReadString(Varint(|s|) + (s + rest)) == Ok(s, rest)
  {
    VarintSizeIsLength(|s|);
    VarintRoundTrip(|s|, s + rest, 5);
    assert (s + rest)[..|s|] == s && (s + rest)[|s|..] == rest;
  }

  // The parser takes written fields off the front one by one, up to whatever follows them.
  lemma {:induction false} ParseFields(m: Body, fields: seq<Field>, tail: seq<byte>)
    requires AllValid(fields) && forall f :: f in fields ==> f.Acceptable()
    ensures Parse(m, EncodeAll(fields) + tail) == Parse(SetAll(m, fields), tail)
    decreases |fields|
  {
    if fields == [] {
      assert EncodeAll(fields) + tail == tail;
    } else {
      var f, rest := fields[0], fields[1..];
      ParseTurn(m, f, EncodeAll(rest) + tail);
      assert EncodeAll(fields) + tail == f.Encode() + (EncodeAll(rest) + tail);
      ParseFields(SetField(m, f), rest, tail);
    }
  }

  lemma {:induction false} SetAllAppend(m: Body, a: seq<Field>, b: seq<Field>)
    ensures SetAll(m, a + b) == SetAll(SetAll(m, a), b)
    decreases |a|
  {
    if a == [] {
      assert a + b == b;
    } else {
      assert (a + b)[1..] == a[1..] + b;
      SetAllAppend(SetField(m, a[0]), a[1..], b);
    }
  }

  // Writing only the numbers that differ from the default loses nothing.
  lemma {:induction false} NumbersRebuild(m: Body)
    ensures SetAll(DEFAULT, NumberFields(m)) == m.(srvName := None, data := [])
  {
    var f1, f2, f3 := IfNonZero(1, m.magic), IfNonZero(2, m.version), IfNonZero(3, m.msgType);
    var f4, f5 := IfNonZero(4, m.reqId), IfNonZero(5, m.dataLen);
    SetAllAppend(DEFAULT, f1 + f2 + f3 + f4, f5);
    SetAllAppend(DEFAULT, f1 + f2 + f3, f4);
    SetAllAppend(DEFAULT, f1 + f2, f3);
    SetAllAppend(DEFAULT, f1, f2);
    SetNumber(DEFAULT, 1, m.magic);
    var m1 := DEFAULT.(magic := m.magic);
    SetNumber(m1, 2, m.version);
    var m2 := m1.(version := m.version);
    SetNumber(m2, 3, m.msgType);
    var m3 := m2.(msgType := m.msgType);
    SetNumber(m3, 4, m.reqId);
    SetNumber(m3.(reqId := m.reqId), 5, m.dataLen);
  }

  lemma {:induction false} SetNumber(m: Body, num: nat, v: nat)
    requires SetField(m, UInt(num, 0)) == m
    ensures SetAll(m, IfNonZero(num, v)) == SetField(m, UInt(num, v))
  {
    if v != 0 {
      assert IfNonZero(num, v)[1..] == [];
    }
  }

  lemma {:induction false} EncodeOne(f: Field)
    requires f.Valid()
    ensures EncodeAll([f]) == f.Encode()
  {
    assert [f][1..] == [];
  }

  // After the numbers, the parser stands before the name and the data.
  lemma {:induction false} ParseNumbers(m: Body, tail: seq<byte>)
    requires m.Valid()
    ensures Parse(DEFAULT, EncodeAll(NumberFields(m)) + tail) == Parse(m.(srvName := None, data := []), tail)
  {
    ParseFields(DEFAULT, NumberFields(m), tail);
    NumbersRebuild(m);
  }

  predicate BadName(m: Body) {
    m.srvName.Some? && !ValidUtf8(m.srvName.value)
  }

  // An absent name leaves things as they are; at one that is not UTF-8 the parser stops.
  lemma {:induction false} ParseName(m: Body, tail: seq<byte>)
    requires m.Valid()
    ensures Parse(m.(srvName := None, data := []), EncodeAll(NameField(m)) + tail)
         == if BadName(m) then Stopped(m.(data := [])) else Parse(m.(data := []), tail)
  {
    if m.srvName.Some? {
      var f := Bytes(6, m.srvName.value);
      EncodeOne(f);
      ParseTurn(m.(srvName := None, data := []), f, tail);
    } else {
      assert EncodeAll(NameField(m)) + tail == tail;
    }
  }

  lemma {:induction false} ParseData(m: Body)
    requires m.Valid()
    ensures Parse(m.(data := []), EncodeAll(DataField(m))) == Whole(m)
  {
    if m.data != [] {
      var f := Bytes(7, m.data);
      EncodeOne(f);
      ParseTurn(m.(data := []), f, []);
      assert f.Encode() + [] == f.Encode();
    }
  }

  // The body round trip, exactly. A service name that is not UTF-8 (the serialiser only logs it)
  // makes the parser give up: the name is in the message by then, the data behind it never is.
  lemma BodyRoundTrip(m: Body)
    requires m.Valid()
    ensures Parse(DEFAULT, Serialize(m)) == if BadName(m) then Stopped(m.(data := [])) else Whole(m)
  {
    var data := EncodeAll(DataField(m));
    ParseNumbers(m, EncodeAll(NameField(m)) + data);
    ParseName(m, data);
    ParseData(m);
  }

  // ---------------------------------------------------------------- other senders, and bytes that run out

  // Whatever varint another sender writes for a number field, its low 32 bits are kept.
  lemma {:induction false} NumberIsLow32Bits(m: Body, num: nat, groups: seq<nat>, rest: seq<byte>)
    requires 1 <= num <= 5 && Groups(groups) && |groups| <= 10
    ensures ParseOne(m, [(8 * num) as byte] + (GroupBytes(groups) + rest)) ==
            Next(SetField(m, UInt(num, GroupValue(groups) % UINT32_BOUND)), rest)
  {
    ReadVarintExactly(groups, rest, 10);
    NumberTurn(m, num, GroupBytes(groups) + rest);
  }

  lemma {:induction false} CutNumberIsTorn(m: Body, num: nat, cut: seq<byte>)
    requires 1 <= num <= 5 && forall k :: 0 <= k < |cut| ==> 128 <= cut[k]
    ensures Parse(m, [(8 * num) as byte] + cut) == Torn(m, num)
  {
    ReadVarintCut(cut, 10);
    ReadTagOf(8 * num, cut);
    assert 8 * num / 8 == num;
  }

  lemma {:induction false} CutTagIsTorn(m: Body, cut: seq<byte>)
    requires cut != [] && forall k :: 0 <= k < |cut| ==> 128 <= cut[k]
    ensures Parse(m, cut) == Torn(m, 0)
  {
    ReadVarintCut(cut, 5);
  }

  // An unknown field whose bytes run out stops the parser, with the message as it stands.
  lemma {:induction false} CutUnknownStops(num: nat, wireType: nat, cut: seq<byte>, depth: nat)
    requires wireType == 0 ==> forall k :: 0 <= k < |cut| ==> 128 <= cut[k]
    requires wireType == 1 ==> |cut| < 8
    requires wireType == 2 ==> ReadString(cut) == Fail
    requires wireType == 3 ==> ReadTag(cut) == Fail
    requires wireType == 5 ==> |cut| < 4
    ensures SkipUnknown(num, wireType, cut, depth) == Fail
  {
    if wireType == 0 { ReadVarintCut(cut, 10); }
  }

  // ... and so does a group that ends with another number.
  lemma {:induction false} WrongEndStops(num: nat, other: nat, rest: seq<byte>, depth: nat)
    requires 1 <= other < 0x2000_0000 && num != other
    ensures SkipGroup(num, Varint(8 * other + 4) + rest, depth) == Fail
  {
    TagParts(other, 4);
    ReadAnyTag(8 * other + 4, rest);
  }

  // An end of group outside any group, a wire type that does not exist and field number 0 stop the parser.
  lemma {:induction false} BadTagStops(m: Body, tag: nat, rest: seq<byte>)
    requires tag < UINT32_BOUND && (tag / 8 == 0 || tag % 8 == 4 || 6 <= tag % 8)
    ensures Parse(m, Varint(tag) + rest) == Stopped(m)
  {
    ReadAnyTag(tag, rest);
    assert !NumberTag(tag) && tag != 50 && tag != 58;
  }

  // ---------------------------------------------------------------- unknown fields

  // A field of any wire type.
  datatype Wire =
    | WireVarint(num: nat, value: nat)
    | WireFixed64(num: nat, bytes: seq<byte>)
    | WireString(num: nat, bytes: seq<byte>)
    | WireGroup(num: nat, fields: seq<Wire>)
    | WireFixed32(num: nat, bytes: seq<byte>)
  {
    predicate Valid() {
      && 1 <= num < 0x2000_0000
      && (WireVarint? ==> value < 0x1_0000_0000_0000_0000)
      && (WireFixed64? ==> |bytes| == 8)
      && (WireString? ==> |bytes| < INT32_BOUND)
      && (WireGroup? ==> AllWireValid(fields))
      && (WireFixed32? ==> |bytes| == 4)
    }

    function WireType(): nat {
      match this
      case WireVarint(_, _) => 0
      case WireFixed64(_, _) => 1
      case WireString(_, _) => 2
      case WireGroup(_, _) => 3
      case WireFixed32(_, _) => 5
    }

    function Tag(): nat {
      8 * num + WireType()
    }

    // The message has no such field, or has it in another wire type.
    predicate IsUnknown() {
      !NumberTag(Tag()) && Tag() != 50 && Tag() != 58
    }

    function Payload(): seq<byte> {
      match this
      case WireVarint(_, v) => Varint(v)
      case WireString(_, s) => Varint(|s|) + s
      case WireGroup(n, fields) => WireAll(fields) + Varint(8 * n + 4)
      case WireFixed64(_, s) => s
      case WireFixed32(_, s) => s
    }

    function Depth(): nat {
      if WireGroup? then 1 + DepthAll(fields) else 0
    }
  }

  predicate AllWireValid(fields: seq<Wire>) {
    fields == [] || (fields[0].Valid() && AllWireValid(fields[1..]))
  }

  function WireAll(fields: seq<Wire>): seq<byte> {
    if fields == [] then [] else Varint(fields[0].Tag()) + (fields[0].Payload() + WireAll(fields[1..]))
  }

  function DepthAll(fields: seq<Wire>): nat {
    if fields == [] then 0
    else
      var first, rest := fields[0].Depth(), DepthAll(fields[1..]);
      if first < rest then rest else first
  }

  lemma {:induction false} TagParts(num: nat, wireType: nat)
    requires wireType < 8
    ensures (8 * num + wireType) / 8 == num && (8 * num + wireType) % 8 == wireType
  {
  }

  lemma {:induction false} VarintWithin(v: nat, k: nat)
    requires v < Pow128(k)
    ensures |Varint(v)| <= k || v == 0
    decreases k
  {
    if v >= 128 {
      VarintWithin(v / 128, k - 1);
    }
  }

  lemma {:induction false} ReadVarint64(v: nat, rest: seq<byte>)
    requires v < 0x1_0000_0000_0000_0000
    ensures ReadVarint(Varint(v) + rest, 10) == Ok(v, rest)
  {
    assert Pow128(5) == 0x8_0000_0000;
    assert Pow128(10) == 0x40_0000_0000_0000_0000;
    VarintWithin(v, 10);
    VarintRoundTrip(v, rest, 10);
  }

  lemma {:induction false} ReadAnyTag(tag: nat, payload: seq<byte>)
    requires tag < UINT32_BOUND
    ensures ReadTag(Varint(tag) + payload) == Ok(tag, payload)
  {
    VarintSizeIsLength(tag);
    VarintRoundTrip(tag, payload, 5);
    assert tag % UINT32_BOUND == tag;
  }

  // Everything but groups: exactly the payload is stepped over.
  lemma {:induction false} SkipsPlain(w: Wire, rest: seq<byte>, depth: nat)
    requires w.Valid() && !w.WireGroup?
    ensures SkipUnknown(w.num, w.WireType(), w.Payload() + rest, depth) == Ok((), rest)
  {
    match w
    case WireVarint(_, v) =>
      ReadVarint64(v, rest);
    case WireString(_, s) =>
      ReadStringOf(s, rest);
      Associate(Varint(|s|), s, rest);
    case WireFixed64(_, s) =>
      assert (s + rest)[8..] == rest;
    case WireFixed32(_, s) =>
      assert (s + rest)[4..] == rest;
  }

  lemma {:induction false} SkipsGroup(num: nat, fields: seq<Wire>, rest: seq<byte>, depth: nat)
    requires 1 <= num < 0x2000_0000 && AllWireValid(fields)
    ensures SkipGroup(num, WireAll(fields) + (Varint(8 * num + 4) + rest), depth) ==
            if DepthAll(fields) <= depth then Ok((), rest) else Fail
    decreases fields, 0
  {
    var end := Varint(8 * num + 4) + rest;
    if fields == [] {
      GroupEnds(num, rest, depth);
      assert WireAll(fields) + end == end;
    } else {
      var after := WireAll(fields[1..]) + end;
      WireAllStep(fields, end);
      GroupTurn(num, fields[0], after, depth);
      Skips(fields[0], after, depth);
      SkipsGroup(num, fields[1..], rest, depth);
    }
  }

  lemma {:induction false} GroupEnds(num: nat, rest: seq<byte>, depth: nat)
    requires 1 <= num < 0x2000_0000
    ensures SkipGroup(num, Varint(8 * num + 4) + rest, depth) == Ok((), rest)
  {
    TagParts(num, 4);
    ReadAnyTag(8 * num + 4, rest);
  }

  lemma {:induction false} WireAllStep(fields: seq<Wire>, end: seq<byte>)
    requires fields != []
    ensures WireAll(fields) + end == Varint(fields[0].Tag()) + (fields[0].Payload() + (WireAll(fields[1..]) + end))
  {
  }

  lemma {:induction false} GroupTurn(num: nat, w: Wire, after: seq<byte>, depth: nat)
    requires w.Valid()
    ensures SkipGroup(num, Varint(w.Tag()) + (w.Payload() + after), depth) ==
            match SkipUnknown(w.num, w.WireType(), w.Payload() + after, depth)
            case Fail => Fail
            case Ok(_, rest) => SkipGroup(num, rest, depth)
  {
    var tag := w.Tag();
    TagParts(w.num, w.WireType());
    ReadAnyTag(tag, w.Payload() + after);
    assert tag % 8 == w.WireType() != 4 && tag / 8 == w.num && tag != 0;
  }

  lemma {:induction false} GroupBegins(num: nat, bytes: seq<byte>, depth: nat)
    requires 1 <= num
    ensures SkipUnknown(num, 3, bytes, 0) == Fail
    ensures SkipUnknown(num, 3, bytes, depth + 1) == SkipGroup(num, bytes, depth)
  {
  }

  lemma {:induction false} SkipsNested(num: nat, fields: seq<Wire>, bytes: seq<byte>, rest: seq<byte>, depth: nat)
    requires 1 <= num < 0x2000_0000 && AllWireValid(fields)
    requires bytes == WireAll(fields) + (Varint(8 * num + 4) + rest)
    ensures SkipUnknown(num, 3, bytes, depth + 1) == if DepthAll(fields) <= depth then Ok((), rest) else Fail
    decreases fields, 1
  {
    GroupBegins(num, bytes, depth);
    SkipsGroup(num, fields, rest, depth);
  }

  // A field is stepped over unless its groups are nested too deep.
  lemma {:induction false} Skips(w: Wire, rest: seq<byte>, depth: nat)
    requires w.Valid()
    ensures SkipUnknown(w.num, w.WireType(), w.Payload() + rest, depth) ==
            if w.Depth() <= depth then Ok((), rest) else Fail
    decreases w
  {
    match w
    case WireGroup(num, fields) =>
      Associate(WireAll(fields), Varint(8 * num + 4), rest);
      if depth == 0 {
        GroupBegins(num, w.Payload() + rest, 0);
      } else {
        SkipsNested(num, fields, w.Payload() + rest, rest, depth - 1);
      }
    case _ =>
      SkipsPlain(w, rest, depth);
  }

  lemma {:induction false} UnknownTurn(m: Body, bytes: seq<byte>, tag: nat, payload: seq<byte>)
    requires ReadTag(bytes) == Ok(tag, payload) && !NumberTag(tag) && tag != 50 && tag != 58 && tag % 8 != 4 && tag != 0
    ensures bytes != []
    ensures Parse(m, bytes) ==
            match SkipUnknown(tag / 8, tag % 8, payload, MAX_DEPTH)
            case Fail => Stopped(m)
            case Ok(_, rest) => Parse(m, rest)
  {
  }

  // A newer peer's extra fields change nothing: the parser steps over exactly their bytes, nested
  // groups included, if and only if no group is nested more than 100 deep; otherwise it stops there.
  lemma {:induction false} UnknownFieldsAreSkipped(m: Body, w: Wire, rest: seq<byte>)
    requires w.Valid() && w.IsUnknown()
    ensures Parse(m, Varint(w.Tag()) + (w.Payload() + rest)) ==
            if w.Depth() <= MAX_DEPTH then Parse(m, rest) else Stopped(m)
  {
    var tag, payload := w.Tag(), w.Payload() + rest;
    TagParts(w.num, w.WireType());
    assert tag % 8 == w.WireType() != 4 && tag / 8 == w.num && tag != 0;
    ReadAnyTag(tag, payload);
    Skips(w, rest, MAX_DEPTH);
    UnknownTurn(m, Varint(tag) + payload, tag, payload);
  }

  // ---------------------------------------------------------------- zero bytes

  lemma {:induction false} NumbersHaveNoZero(fields: seq<Field>)
    requires AllValid(fields) && forall f :: f in fields ==> f.UInt? && f.value != 0
    ensures 0 !in EncodeAll(fields)
    decreases |fields|
  {
    if fields != [] {
      var f := fields[0];
      VarintHasNoZero(f.value);
      assert f.Encode() == [(8 * f.num) as byte] + Varint(f.value);
      assert 0 !in f.Encode();
      NumbersHaveNoZero(fields[1..]);
    }
  }

  lemma {:induction false} StringZeros(f: Field)
    requires f.Valid() && f.Bytes?
    ensures 0 in f.Encode() <==> f.bytes == [] || 0 in f.bytes
  {
    VarintHasNoZero(|f.bytes|);
  }

  // The serialised body has a zero byte only where the name or the data has one, apart from a
  // name that is present and empty; the numbers never contribute any.
  lemma ZeroFree(m: Body)
    requires m.Valid()
    ensures 0 !in EncodeAll(NumberFields(m))
    ensures 0 !in Serialize(m) <==>
            (m.srvName.Some? ==> m.srvName.value != [] && 0 !in m.srvName.value) && 0 !in m.data
  {
    NumbersHaveNoZero(NumberFields(m));
    if m.srvName.Some? {
      EncodeOne(Bytes(6, m.srvName.value));
      StringZeros(Bytes(6, m.srvName.value));
    }
    if m.data != [] {
      EncodeOne(Bytes(7, m.data));
      StringZeros(Bytes(7, m.data));
    }
  }

  // ---------------------------------------------------------------- the generated code

  // What each of the generated writes adds to the target.
  function NumberBytes(num: nat, v: nat): seq<byte>
    requires 1 <= num <= 5 && v < UINT32_BOUND
  {
    EncodeAll(IfNonZero(num, v))
  }

  lemma {:induction false} EncodeAllAppend(a: seq<Field>, b: seq<Field>)
    requires AllValid(a) && AllValid(b)
    ensures AllValid(a + b) && EncodeAll(a + b) == EncodeAll(a) + EncodeAll(b)
    decreases |a|
  {
    if a == [] {
      assert a + b == b;
    } else {
      assert (a + b)[0] == a[0] && (a + b)[1..] == a[1..] + b;
      EncodeAllAppend(a[1..], b);
      Associate(a[0].Encode(), EncodeAll(a[1..]), EncodeAll(b));
    }
  }

  lemma {:induction false} AppendNumber(fields: seq<Field>, num: nat, v: nat)
    requires AllValid(fields) && 1 <= num <= 5 && v < UINT32_BOUND
    ensures AllValid(fields + IfNonZero(num, v))
    ensures EncodeAll(fields + IfNonZero(num, v)) == EncodeAll(fields) + NumberBytes(num, v)
  {
    EncodeAllAppend(fields, IfNonZero(num, v));
  }

  lemma {:induction false} NumbersAre(m: Body)
    requires m.Valid()
    ensures EncodeAll(NumberFields(m)) ==
            NumberBytes(1, m.magic) + NumberBytes(2, m.version) + NumberBytes(3, m.msgType) + NumberBytes(4, m.reqId) +
            NumberBytes(5, m.dataLen)
  {
    var f1 := IfNonZero(1, m.magic);
    AppendNumber([], 1, m.magic);
    assert [] + f1 == f1;
    var f2 := f1 + IfNonZero(2, m.version);
    AppendNumber(f1, 2, m.version);
    var f3 := f2 + IfNonZero(3, m.msgType);
    AppendNumber(f2, 3, m.msgType);
    AppendNumber(f3, 4, m.reqId);
    AppendNumber(f3 + IfNonZero(4, m.reqId), 5, m.dataLen);
  }

  lemma {:induction false} Associate(a: seq<byte>, b: seq<byte>, c: seq<byte>)
    ensures a + (b + c) == (a + b) + c
  {
  }

  // Fields in ascending order of their numbers, all below a bound, none with its default value.
  predicate Minimal(fields: seq<Field>, bound: nat) {
    && (forall i, j :: 0 <= i < j < |fields| ==> fields[i].num < fields[j].num)
    && (forall k :: 0 <= k < |fields| ==> fields[k].num < bound && NotDefault(fields[k]))
  }

  predicate NotDefault(f: Field) {
    if f.UInt? then f.value != 0 else f.num == 6 || f.bytes != []
  }

  lemma MinimalAppend(fields: seq<Field>, more: seq<Field>, num: nat)
    requires Minimal(fields, num) && |more| <= 1 && (more != [] ==> more[0].num == num && NotDefault(more[0]))
    ensures Minimal(fields + more, num + 1)
  {
  }

  function FieldsOf(m: Body): seq<Field> {
    NumberFields(m) + NameField(m) + DataField(m)
  }

  lemma MinimalNumber(fields: seq<Field>, num: nat, v: nat)
    requires Minimal(fields, num)
    ensures Minimal(fields + IfNonZero(num, v), num + 1)
  {
    MinimalAppend(fields, IfNonZero(num, v), num);
  }

  lemma NumbersAreMinimal(m: Body)
    ensures Minimal(NumberFields(m), 6)
  {
    var f1 := [] + IfNonZero(1, m.magic);
    MinimalNumber([], 1, m.magic);
    assert f1 == IfNonZero(1, m.magic);
    var f2 := f1 + IfNonZero(2, m.version);
    MinimalNumber(f1, 2, m.version);
    var f3 := f2 + IfNonZero(3, m.msgType);
    MinimalNumber(f2, 3, m.msgType);
    var f4 := f3 + IfNonZero(4, m.reqId);
    MinimalNumber(f3, 4, m.reqId);
    MinimalNumber(f4, 5, m.dataLen);
  }

  lemma FieldsAreMinimal(m: Body)
    ensures Minimal(FieldsOf(m), 8)
  {
    NumbersAreMinimal(m);
    MinimalAppend(NumberFields(m), NameField(m), 6);
    MinimalAppend(NumberFields(m) + NameField(m), DataField(m), 7);
  }

  lemma FieldsMakeTheMessage(m: Body)
    ensures SetAll(DEFAULT, FieldsOf(m)) == m
  {
    SetAllAppend(DEFAULT, NumberFields(m) + NameField(m), DataField(m));
    SetAllAppend(DEFAULT, NumberFields(m), NameField(m));
    NumbersRebuild(m);
    SetString(m.(srvName := None, data := []), NameField(m));
    SetString(m.(data := []), DataField(m));
  }

  lemma SetString(m: Body, fields: seq<Field>)
    requires |fields| <= 1
    ensures SetAll(m, fields) == if fields == [] then m else SetField(m, fields[0])
  {
    if fields != [] {
      assert fields[1..] == [];
    }
  }

  // The serialised body is the minimal list of fields that makes up the message, in field order.
  lemma SerializeIsMinimal(m: Body)
    requires m.Valid()
    ensures AllValid(FieldsOf(m)) && Serialize(m) == EncodeAll(FieldsOf(m))
    ensures Minimal(FieldsOf(m), 8) && SetAll(DEFAULT, FieldsOf(m)) == m
  {
    EncodeAllAppend(NumberFields(m), NameField(m));
    EncodeAllAppend(NumberFields(m) + NameField(m), DataField(m));
    Associate(EncodeAll(NumberFields(m)), EncodeAll(NameField(m)), EncodeAll(DataField(m)));
    FieldsAreMinimal(m);
    FieldsMakeTheMessage(m);
  }

  // The bytes of one message, as they go over the wire.
  const SAMPLE: Body := Body(0xaa, 1, 3, 300, 2, Some([0x61]), [5, 6])

  lemma SampleNumbers()
    ensures EncodeAll(NumberFields(SAMPLE)) == [8, 0xaa, 1, 16, 1, 24, 3, 32, 0xac, 2, 40, 2]
  {
    NumbersAre(SAMPLE);
    SampleNumber(1, 0xaa, [0xaa, 1]);
    SampleNumber(2, 1, [1]);
    SampleNumber(3, 3, [3]);
    SampleNumber(4, 300, [0xac, 2]);
    SampleNumber(5, 2, [2]);
    assert NumberBytes(1, 0xaa) + NumberBytes(2, 1) == [8, 0xaa, 1, 16, 1];
    assert [8, 0xaa, 1, 16, 1] + NumberBytes(3, 3) == [8, 0xaa, 1, 16, 1, 24, 3];
  }

  lemma SampleNumber(num: nat, v: nat, bytes: seq<byte>)
    requires 1 <= num <= 5 && 0 < v < 0x4000
    requires bytes == if v < 128 then [v as byte] else [(v % 128 + 128) as byte, (v / 128) as byte]
    ensures NumberBytes(num, v) == [(8 * num) as byte] + bytes
  {
    EncodeOne(UInt(num, v));
    assert v >= 128 ==> Varint(v) == [(v % 128 + 128) as byte] + Varint(v / 128);
  }

  lemma SampleStrings()
    ensures EncodeAll(NameField(SAMPLE)) == [50, 1, 0x61] && EncodeAll(DataField(SAMPLE)) == [58, 2, 5, 6]
  {
    EncodeOne(Bytes(6, [0x61]));
    EncodeOne(Bytes(7, [5, 6]));
  }

  lemma WireExample()
    ensures Serialize(SAMPLE) == [8, 0xaa, 1, 16, 1, 24, 3, 32, 0xac, 2, 40, 2, 50, 1, 0x61, 58, 2, 5, 6]
  {
    SampleNumbers();
    SampleStrings();
  }

  // _InternalSerialize: the target grows field by field, by nothing where a field has its default.
  method InternalSerialize(m: Body) returns (target: seq<byte>)
    requires m.Valid()
    ensures target == Serialize(m)
  {
    target := NumberBytes(1, m.magic);
    target := target + NumberBytes(2, m.version);
    target := target + NumberBytes(3, m.msgType);
    target := target + NumberBytes(4, m.reqId);
    target := target + NumberBytes(5, m.dataLen);
    NumbersAre(m);
    Associate(target, EncodeAll(NameField(m)), EncodeAll(DataField(m)));
    target := target + EncodeAll(NameField(m));
    target := target + EncodeAll(DataField(m));
  }

  // UInt32SizePlusOne, counted only for a field that is written.
  function NumberSize(v: nat): nat {
    if v != 0 then VarintSize(v) + 1 else 0
  }

  lemma {:induction false} NumberSizeIsLength(num: nat, v: nat)
    requires 1 <= num <= 5 && v < UINT32_BOUND
    ensures |NumberBytes(num, v)| == NumberSize(v)
  {
    VarintSizeIsLength(v);
    if v != 0 { EncodeOne(UInt(num, v)); }
  }

  lemma {:induction false} NumberSizes(m: Body)
    requires m.Valid()
    ensures |EncodeAll(NumberFields(m))| ==
            NumberSize(m.magic) + NumberSize(m.version) + NumberSize(m.msgType) + NumberSize(m.reqId) +
            NumberSize(m.dataLen)
  {
    NumbersAre(m);
    NumberSizeIsLength(1, m.magic);
    NumberSizeIsLength(2, m.version);
    NumberSizeIsLength(3, m.msgType);
    NumberSizeIsLength(4, m.reqId);
    NumberSizeIsLength(5, m.dataLen);
  }

  lemma {:induction false} StringSizes(m: Body)
    requires m.Valid()
    ensures |EncodeAll(NameField(m))| ==
            if m.srvName.Some? then 1 + (VarintSize(|m.srvName.value|) + |m.srvName.value|) else 0
    ensures |EncodeAll(DataField(m))| == if m.data != [] then 1 + (VarintSize(|m.data|) + |m.data|) else 0
  {
    if m.srvName.Some? {
      EncodeOne(Bytes(6, m.srvName.value));
      VarintSizeIsLength(|m.srvName.value|);
    }
    if m.data != [] { EncodeOne(Bytes(7, m.data)); }
    VarintSizeIsLength(|m.data|);
  }

  // ByteSizeLong: strings first, then the numbers, with the closed form for varints; still exactly
  // the length of what the serialiser writes.
  method ByteSizeLong(m: Body) returns (total: nat)
    requires m.Valid()
    ensures total == |Serialize(m)|
  {
    total := 0;
    if m.srvName.Some? { total := total + 1 + (VarintSize(|m.srvName.value|) + |m.srvName.value|); }
    if m.data != [] { total := total + 1 + (VarintSize(|m.data|) + |m.data|); }
    total := total + NumberSize(m.magic);
    total := total + NumberSize(m.version);
    total := total + NumberSize(m.msgType);
    total := total + NumberSize(m.reqId);
    total := total + NumberSize(m.dataLen);
    StringSizes(m);
    NumberSizes(m);
  }

  // _InternalParse: the loop over what is left of the input.
  method InternalParse(bytes: seq<byte>) returns (r: Parsed)
    ensures r == Parse(DEFAULT, bytes)
  {
    var m, left := DEFAULT, bytes;
    while left != []
      invariant Parse(m, left) == Parse(DEFAULT, bytes)
      decreases |left|
    {
      match ParseOne(m, left) {
        case Last(end) => return end;
        case Next(m', rest) => m, left := m', rest;
      }
    }
    r := Whole(m);
  }
}
