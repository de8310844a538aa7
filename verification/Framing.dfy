/**
 RPC framing: a message is its serialised body behind a decimal length of four digits. The
 receiver reads the digits, then that many bytes, and parses them as a C string, so a zero
 byte in the body ends it early.
 */
module Framing {
  import opened Basics
  import opened ProtoBody
  import opened Sockets

  const MAGIC: nat := 0xaa
  const VERSION: nat := 0x01
  const PREFIX_LEN: nat := 4        // kDataLen
  const DATA_MAX_LEN: nat := 10000  // kDataMaxLen

  datatype Protocol = Protocol(
    magic: nat, version: nat, msgType: nat, reqId: nat, dataLen: nat,
    srvName: seq<byte>, data: seq<byte>)
  {
    predicate Valid() {
      ToBody(this).Valid()
    }
  }

  // SerializerHandler<Protocol>::Serialize sets the service name only if there is one.
  function ToBody(p: Protocol): Body {
    Body(p.magic, p.version, p.msgType, p.reqId, p.dataLen, if p.srvName == [] then None else Some(p.srvName), p.data)
  }

  function BodyBytes(p: Protocol): seq<byte>
    requires p.Valid()
  {
    Serialize(ToBody(p))
  }

  // What the receiver has in hand: a message, or one that is as p but for this field (0: any), in
  // which the input ran out and whose content is up to the protobuf library.
  datatype Decoded = Message(p: Protocol) | Partly(p: Protocol, field: nat)

  // Protocol::Create takes type, id and data from the wire; the rest is set afresh.
  function FromBody(b: Body): Protocol {
    Protocol(MAGIC, VERSION, b.msgType, b.reqId, |b.data| % UINT32_BOUND,
             if b.srvName.Some? then b.srvName.value else [], b.data)
  }

  // The answer of the parser is ignored: the fields are used as they stand. Magic number, version
  // and length (fields 1, 2 and 5) are not used at all.
  function Deserialize(bytes: seq<byte>): Decoded {
    match Parse(DEFAULT, bytes)
    case Whole(b) => Message(FromBody(b))
    case Stopped(b) => Message(FromBody(b))
    case Torn(b, field) =>
      if field == 1 || field == 2 || field == 5 then Message(FromBody(b)) else Partly(FromBody(b), field)
  }

  // The receiver may have q, as far as the code of this repository decides.
  predicate MayBe(d: Decoded, q: Protocol) {
    match d
    case Message(p) => q == p
    case Partly(p, field) =>
      if field == 3 then q == p.(msgType := q.msgType)
      else if field == 4 then q == p.(reqId := q.reqId)
      else if field == 6 then q == p.(srvName := q.srvName)
      else if field == 7 then q == p.(data := q.data, dataLen := |q.data| % UINT32_BOUND)
      else true
  }

  // So `Message(q)` says that q arrives whatever the library does, and nothing else says so.
  lemma CertainExactly(d: Decoded, q: Protocol)
    ensures d == Message(q) <==> forall r :: MayBe(d, r) ==> r == q
  {
    if d.Message? {
      assert MayBe(d, d.p);
    } else {
      var p := d.p;
      var one, two :=
        if d.field == 3 then p.(msgType := 1)
        else if d.field == 4 then p.(reqId := 1)
        else if d.field == 6 then p.(srvName := [])
        else p.(data := [], dataLen := 0),
        if d.field == 3 then p.(msgType := 2)
        else if d.field == 4 then p.(reqId := 2)
        else if d.field == 6 then p.(srvName := [1])
        else p.(data := [1], dataLen := 1);
      assert MayBe(d, one) && MayBe(d, two) && one != two;
    }
  }

  // What a receiver can get to see of p.
  function Delivered(p: Protocol): (d: Protocol)
    ensures d.msgType == p.msgType && d.reqId == p.reqId && d.srvName == p.srvName && d.data == p.data
    ensures d.magic == 0xaa && d.version == 1 && (|p.data| < UINT32_BOUND ==> d.dataLen == |p.data|)
  {
    p.(magic := MAGIC, version := VERSION, dataLen := |p.data| % UINT32_BOUND)
  }

  // std::string(const char*): up to the first zero byte.
  function CString(s: seq<byte>): (r: seq<byte>)
    ensures |r| <= |s|
  {
    if s == [] || s[0] == 0 then [] else [s[0]] + CString(s[1..])
  }

  function Decode(buf: seq<byte>): Decoded {
    Deserialize(CString(buf))
  }

  function Digit(d: nat): byte
    requires d < 10
  {
    (48 + d) as byte
  }

  // snprintf("%04d") cut off after four characters.
  function Prefix(n: nat): seq<byte>
    requires n <= DATA_MAX_LEN
  {
    var m := if n < 10000 then n else n / 10;
    var tens := m / 10;
    var hundreds := tens / 10;
    [Digit(hundreds / 10), Digit(hundreds % 10), Digit(tens % 10), Digit(m % 10)]
  }

  // The frame of a body; one that is too long gets none.
  function Frame(body: seq<byte>): seq<byte> {
    if |body| > DATA_MAX_LEN then [] else Prefix(|body|) + body
  }

  function Encode(p: Protocol): seq<byte>
    requires p.Valid()
  {
    Frame(BodyBytes(p))
  }

  // atoi: white space, a sign, digits up to the first other character.
  function Atoi(s: seq<byte>): int {
    if s == [] then 0
    else if s[0] == 32 || 9 <= s[0] <= 13 then Atoi(s[1..])
    else if s[0] == 45 then 0 - (AtoiDigits(s[1..], 0) as int)
    else if s[0] == 43 then AtoiDigits(s[1..], 0)
    else AtoiDigits(s, 0)
  }

  function AtoiDigits(s: seq<byte>, acc: nat): nat
    decreases |s|
  {
    if s != [] && 48 <= s[0] <= 57 then AtoiDigits(s[1..], 10 * acc + (s[0] - 48) as nat) else acc
  }

  // One body off the front of a byte stream, if the stream holds it whole.
  function NextBody(stream: seq<byte>): (r: Option<(seq<byte>, seq<byte>)>)
    ensures r.Some? ==> |r.value.1| < |stream|
  {
    if |stream| < PREFIX_LEN then None
    else
      var n := Atoi(stream[..PREFIX_LEN]);
      var rest := stream[PREFIX_LEN..];
      if n <= 0 || |rest| < n then None else Some((rest[..n], rest[n..]))
  }

  // ... and the message it holds.
  function NextMessage(stream: seq<byte>): (r: Option<(Decoded, seq<byte>)>)
    ensures r.Some? ==> |r.value.1| < |stream|
  {
    match NextBody(stream)
    case None => None
    case Some((body, rest)) => Some((Decode(body), rest))
  }

  // ---------------------------------------------------------------- what survives decoding

  // A zero byte ends the body early; at a name that is not UTF-8 the parser stops, but the name is in
  // the message by then, and nothing is lost if no data were to follow.
  predicate Arrives(p: Protocol) {
    0 !in p.srvName && if ValidUtf8(p.srvName) then 0 !in p.data else p.data == []
  }

  lemma {:induction false} CStringPast(x: seq<byte>, y: seq<byte>)
    requires 0 !in x
    ensures CString(x + y) == x + CString(y)
    decreases |x|
  {
    if x == [] {
      assert x + y == y;
    } else {
      assert (x + y)[1..] == x[1..] + y;
      CStringPast(x[1..], y);
    }
  }

  lemma {:induction false} CStringCuts(s: seq<byte>, y: seq<byte>)
    requires 0 in s
    ensures CString(s + y) == CString(s) && |CString(s)| < |s|
    decreases |s|
  {
    if s[0] != 0 {
      assert (s + y)[1..] == s[1..] + y;
      CStringCuts(s[1..], y);
    }
  }

  lemma {:induction false} CutStringFails(n: nat, cut: seq<byte>)
    requires n < UINT32_BOUND && (|cut| < n || INT32_BOUND <= n)
    ensures ReadString(Varint(n) + cut) == Fail
  {
    VarintSizeIsLength(n);
    VarintRoundTrip(n, cut, 5);
  }

  lemma {:induction false} CutTurnTears(m: Body, tag: nat, payload: seq<byte>)
    requires (tag == 50 || tag == 58) && ReadString(payload) == Fail
    ensures Parse(m, [tag as byte] + payload) == Torn(m, tag / 8)
  {
    ReadTagOf(tag, payload);
  }

  // A length-delimited field whose bytes run out is torn.
  lemma {:induction false} CutFieldIsTorn(m: Body, f: Field, cut: seq<byte>)
    requires f.Valid() && f.Bytes? && |cut| < |f.bytes|
    ensures Parse(m, StringHead(f) + cut) == Torn(m, f.num)
  {
    var tag, payload := if f.num == 6 then 50 else 58, Varint(|f.bytes|) + cut;
    CutStringFails(|f.bytes|, cut);
    CutTurnTears(m, tag, payload);
    assert StringHead(f) == [tag as byte] + Varint(|f.bytes|);
    Associate([tag as byte], Varint(|f.bytes|), cut);
  }

  // The tag and the length of a string field, and what they are made of.
  function StringHead(f: Field): seq<byte>
    requires f.Valid() && f.Bytes?
  {
    [(8 * f.num + 2) as byte] + Varint(|f.bytes|)
  }

  lemma {:induction false} HeadHasNoZero(f: Field)
    requires f.Valid() && f.Bytes? && f.bytes != []
    ensures 0 !in StringHead(f) && f.Encode() == StringHead(f) + f.bytes
  {
    VarintHasNoZero(|f.bytes|);
  }

  // A zero somewhere in s, behind two zero-free stretches, cuts everything off inside s.
  lemma {:induction false} CStringCutsBehind(a: seq<byte>, b: seq<byte>, s: seq<byte>, y: seq<byte>)
    requires 0 !in a && 0 !in b && 0 in s
    ensures CString(a + (b + (s + y))) == a + (b + CString(s)) && |CString(s)| < |s|
  {
    CStringPast(a, b + (s + y));
    CStringPast(b, s + y);
    CStringCuts(s, y);
  }

  lemma {:induction false} FieldIsHeadAndBytes(f: Field)
    requires f.Valid() && f.Bytes? && f.bytes != []
    ensures EncodeAll([f]) == StringHead(f) + f.bytes
  {
    EncodeOne(f);
    HeadHasNoZero(f);
  }

  lemma {:induction false} BytesAroundName(p: Protocol)
    requires p.Valid() && p.srvName != []
    ensures var m := ToBody(p); var f := Bytes(6, p.srvName);
            BodyBytes(p) == EncodeAll(NumberFields(m)) + (StringHead(f) + (p.srvName + EncodeAll(DataField(m))))
  {
    var f := Bytes(6, p.srvName);
    FieldIsHeadAndBytes(f);
    Associate(StringHead(f), p.srvName, EncodeAll(DataField(ToBody(p))));
  }

  lemma {:induction false} ZeroInNameTears(p: Protocol)
    requires p.Valid() && 0 in p.srvName
    ensures Parse(DEFAULT, CString(BodyBytes(p))) == Torn(ToBody(p).(srvName := None, data := []), 6)
  {
    var m := ToBody(p);
    var f := Bytes(6, p.srvName);
    BytesAroundName(p);
    ZeroFree(m);
    HeadHasNoZero(f);
    CStringCutsBehind(EncodeAll(NumberFields(m)), StringHead(f), p.srvName, EncodeAll(DataField(m)));
    var cut := CString(p.srvName);
    ParseNumbers(m, StringHead(f) + cut);
    CutFieldIsTorn(m.(srvName := None, data := []), f, cut);
  }

  lemma {:induction false} BytesAroundData(p: Protocol)
    requires p.Valid() && p.data != []
    ensures var m := ToBody(p); var f := Bytes(7, p.data);
            BodyBytes(p) == EncodeAll(NumberFields(m)) + ((EncodeAll(NameField(m)) + StringHead(f)) + (p.data + []))
  {
    var f := Bytes(7, p.data);
    FieldIsHeadAndBytes(f);
    Associate(EncodeAll(NameField(ToBody(p))), StringHead(f), p.data);
    assert p.data + [] == p.data;
  }

  lemma {:induction false} ZeroInDataTears(p: Protocol)
    requires p.Valid() && 0 !in p.srvName && 0 in p.data
    ensures var m := ToBody(p).(data := []);
            Parse(DEFAULT, CString(BodyBytes(p))) == if BadName(m) then Stopped(m) else Torn(m, 7)
  {
    var m := ToBody(p);
    var f := Bytes(7, p.data);
    var name, head := EncodeAll(NameField(m)), StringHead(f);
    BytesAroundData(p);
    ZeroFree(m);
    NameHasNoZero(m);
    HeadHasNoZero(f);
    CStringCutsBehind(EncodeAll(NumberFields(m)), name + head, p.data, []);
    CutDataIsTorn(m, CString(p.data));
  }

  lemma {:induction false} CutDataIsTorn(m: Body, cut: seq<byte>)
    requires m.Valid() && |cut| < |m.data|
    ensures var name, head := EncodeAll(NameField(m)), StringHead(Bytes(7, m.data));
            Parse(DEFAULT, EncodeAll(NumberFields(m)) + ((name + head) + cut)) ==
            if BadName(m) then Stopped(m.(data := [])) else Torn(m.(data := []), 7)
  {
    var f := Bytes(7, m.data);
    var name, head := EncodeAll(NameField(m)), StringHead(f);
    assert (name + head) + cut == name + (head + cut);
    ParseNumbers(m, name + (head + cut));
    ParseName(m, head + cut);
    CutFieldIsTorn(m.(data := []), f, cut);
  }

  lemma {:induction false} NameHasNoZero(m: Body)
    requires m.Valid() && (m.srvName.Some? ==> m.srvName.value != [] && 0 !in m.srvName.value)
    ensures 0 !in EncodeAll(NameField(m))
  {
    if m.srvName.Some? {
      EncodeOne(Bytes(6, m.srvName.value));
      StringZeros(Bytes(6, m.srvName.value));
    }
  }

  lemma DecodeCases(p: Protocol)
    requires p.Valid()
    ensures Decode(BodyBytes(p)) ==
            if 0 in p.srvName then Partly(Delivered(p.(srvName := [], data := [])), 6)
            else if !ValidUtf8(p.srvName) then Message(Delivered(p.(data := [])))
            else if 0 in p.data then Partly(Delivered(p.(data := [])), 7)
            else Message(Delivered(p))
  {
    if 0 in p.srvName {
      ZeroInNameTears(p);
    } else if 0 in p.data {
      ZeroInDataTears(p);
    } else {
      ZeroFreeParses(p);
    }
  }

  lemma {:induction false} ZeroFreeParses(p: Protocol)
    requires p.Valid() && 0 !in p.srvName && 0 !in p.data
    ensures var m := ToBody(p);
            Parse(DEFAULT, CString(BodyBytes(p))) == if BadName(m) then Stopped(m.(data := [])) else Whole(m)
  {
    ZeroFree(ToBody(p));
    CStringPast(BodyBytes(p), []);
    assert BodyBytes(p) + [] == BodyBytes(p);
    BodyRoundTrip(ToBody(p));
  }

  // What a message becomes, exactly. A zero byte in the name tears the name and loses the data, a
  // name that is not UTF-8 loses the data, a zero byte in the data tears the data. Hence when the
  // message is certain to arrive.
  lemma DecodeExact(p: Protocol)
    requires p.Valid()
    ensures Decode(BodyBytes(p)) ==
            if 0 in p.srvName then Partly(Delivered(p.(srvName := [], data := [])), 6)
            else if !ValidUtf8(p.srvName) then Message(Delivered(p.(data := [])))
            else if 0 in p.data then Partly(Delivered(p.(data := [])), 7)
            else Message(Delivered(p))
    ensures Decode(BodyBytes(p)) == Message(Delivered(p)) <==> Arrives(p)
  {
    DecodeCases(p);
  }

  // When a message can arrive at all, if the library is kind enough to a torn field.
  lemma CanArriveExactly(p: Protocol)
    requires p.Valid()
    ensures MayBe(Decode(BodyBytes(p)), Delivered(p)) <==>
            p.data == [] || (ValidUtf8(p.srvName) && 0 !in p.srvName)
  {
    DecodeCases(p);
  }

  // What goes over the wire is all seven fields, each in its own place.
  lemma WireCarriesTheFields(p: Protocol)
    requires p.Valid()
    ensures var b := Parse(DEFAULT, BodyBytes(p)).m;
            && b.magic == p.magic && b.version == p.version && b.msgType == p.msgType && b.reqId == p.reqId
            && b.dataLen == p.dataLen && b.srvName == (if p.srvName == [] then None else Some(p.srvName))
            && (ValidUtf8(p.srvName) ==> b.data == p.data)
  {
    BodyRoundTrip(ToBody(p));
  }

  // A number that is cut off: type and id are then up to the library, the others are not used.
  lemma {:induction false} CutNumberDecodes(num: nat, cut: seq<byte>)
    requires 1 <= num <= 5 && forall k :: 0 <= k < |cut| ==> 128 <= cut[k]
    ensures Decode([(8 * num) as byte] + cut) ==
            if num == 3 || num == 4 then Partly(FromBody(DEFAULT), num) else Message(FromBody(DEFAULT))
  {
    var bytes := [(8 * num) as byte] + cut;
    assert 0 !in bytes;
    CStringPast(bytes, []);
    assert bytes + [] == bytes;
    CutNumberIsTorn(DEFAULT, num, cut);
  }

  // A name that is not UTF-8: the data vanish without a word.
  lemma BadNameLosesData()
    ensures var p := Protocol(MAGIC, VERSION, 3, 1, 1, [0xFF], [5]);
            Decode(BodyBytes(p)) == Message(Delivered(p).(dataLen := 0, data := []))
  {
    DecodeExact(Protocol(MAGIC, VERSION, 3, 1, 1, [0xFF], [5]));
  }

  // A zero byte in the name: whatever the library makes of the name, the data are lost. One in the
  // data: what the receiver then has for data is up to the library.
  lemma ZeroByteEndsTheBody()
    ensures var p := Protocol(MAGIC, VERSION, 3, 1, 1, [0], [5]);
            forall q :: MayBe(Decode(BodyBytes(p)), q) ==> q.data == []
    ensures var p := Protocol(MAGIC, VERSION, 3, 1, 1, [], [0]);
            Decode(BodyBytes(p)) == Partly(Delivered(p.(data := [])), 7)
  {
    DecodeExact(Protocol(MAGIC, VERSION, 3, 1, 1, [0], [5]));
    DecodeExact(Protocol(MAGIC, VERSION, 3, 1, 1, [], [0]));
  }

  // ---------------------------------------------------------------- frames

  predicate Blank(b: byte) { b == 32 || 9 <= b <= 13 }
  predicate IsDigit(b: byte) { 48 <= b <= 57 }
  predicate AllDigits(s: seq<byte>) { forall k :: 0 <= k < |s| ==> IsDigit(s[k]) }

  function Decimal(digits: seq<byte>): nat
    requires AllDigits(digits)
  {
    if digits == [] then 0
    else 10 * Decimal(digits[..|digits| - 1]) + (digits[|digits| - 1] - 48) as nat
  }

  // The accumulator is the value of the digits read so far.
  lemma {:induction false} AtoiDigitsOf(done: seq<byte>, digits: seq<byte>, tail: seq<byte>)
    requires AllDigits(done) && AllDigits(digits) && (tail != [] ==> !IsDigit(tail[0]))
    ensures AllDigits(done + digits) && AtoiDigits(digits + tail, Decimal(done)) == Decimal(done + digits)
    decreases |digits|
  {
    if digits == [] {
      assert done + digits == done && digits + tail == tail;
    } else {
      var next := done + [digits[0]];
      assert next[..|done|] == done;
      assert (digits + tail)[1..] == digits[1..] + tail;
      AtoiDigitsOf(next, digits[1..], tail);
      assert next + digits[1..] == done + digits;
    }
  }

  // atoi, exactly: blanks, a sign or none, digits, and whatever comes after them.
  lemma {:induction false} AtoiExactly(blanks: seq<byte>, sign: seq<byte>, digits: seq<byte>, tail: seq<byte>)
    requires (forall k :: 0 <= k < |blanks| ==> Blank(blanks[k])) && AllDigits(digits)
    requires (sign == [] || sign == [43] || sign == [45]) && (tail != [] ==> !IsDigit(tail[0]))
    requires sign == [] && digits == [] && tail != [] ==> !Blank(tail[0]) && tail[0] != 43 && tail[0] != 45
    ensures Atoi(blanks + (sign + (digits + tail))) ==
            if sign == [45] then 0 - (Decimal(digits) as int) else Decimal(digits)
    decreases |blanks|
  {
    var s := sign + (digits + tail);
    if blanks != [] {
      assert (blanks + s)[1..] == blanks[1..] + s;
      AtoiExactly(blanks[1..], sign, digits, tail);
    } else {
      assert blanks + s == s;
      AtoiSigned(sign, digits, tail);
    }
  }

  lemma {:induction false} AtoiSigned(sign: seq<byte>, digits: seq<byte>, tail: seq<byte>)
    requires AllDigits(digits) && (sign == [] || sign == [43] || sign == [45]) && (tail != [] ==> !IsDigit(tail[0]))
    requires sign == [] && digits == [] && tail != [] ==> !Blank(tail[0]) && tail[0] != 43 && tail[0] != 45
    ensures Atoi(sign + (digits + tail)) == if sign == [45] then 0 - (Decimal(digits) as int) else Decimal(digits)
  {
    var s := sign + (digits + tail);
    AtoiDigitsOf([], digits, tail);
    assert [] + digits == digits;
    if sign == [] {
      assert s == digits + tail;
    } else {
      assert s[1..] == digits + tail;
    }
  }

  lemma {:induction false} AtoiOfFour(a: nat, b: nat, c: nat, d: nat)
    requires a < 10 && b < 10 && c < 10 && d < 10
    ensures Atoi([Digit(a), Digit(b), Digit(c), Digit(d)]) == 1000 * a + 100 * b + 10 * c + d
  {
    var s := [Digit(a), Digit(b), Digit(c), Digit(d)];
    assert s[1..] == [Digit(b), Digit(c), Digit(d)] && s[1..][1..] == [Digit(c), Digit(d)];
    assert [Digit(c), Digit(d)][1..] == [Digit(d)] && [Digit(d)][1..] == [];
    assert AtoiDigits([], 1000 * a + 100 * b + 10 * c + d) == 1000 * a + 100 * b + 10 * c + d;
    assert AtoiDigits([Digit(d)], 100 * a + 10 * b + c) == 1000 * a + 100 * b + 10 * c + d;
    assert AtoiDigits([Digit(c), Digit(d)], 10 * a + b) == 1000 * a + 100 * b + 10 * c + d;
    assert AtoiDigits(s[1..], a) == 1000 * a + 100 * b + 10 * c + d;
  }

  lemma {:induction false} AtoiOfPrefix(n: nat)
    requires n <= DATA_MAX_LEN
    ensures |Prefix(n)| == PREFIX_LEN && AllDigits(Prefix(n))
    ensures Atoi(Prefix(n)) == if n < 10000 then n else n / 10
  {
    var m := if n < 10000 then n else n / 10;
    var tens := m / 10;
    var hundreds := tens / 10;
    AtoiOfFour(hundreds / 10, hundreds % 10, tens % 10, m % 10);
  }

  // A body comes off the front of a stream exactly if the stream is its announced length, in any form
  // that atoi reads, then the body, then the rest.
  lemma {:induction false} NextBodyExactly(stream: seq<byte>, body: seq<byte>, rest: seq<byte>)
    ensures NextBody(stream) == Some((body, rest)) <==>
            && body != [] && |stream| == PREFIX_LEN + |body| + |rest|
            && stream == stream[..PREFIX_LEN] + (body + rest) && Atoi(stream[..PREFIX_LEN]) == |body|
  {
    if PREFIX_LEN <= |stream| {
      var tail := stream[PREFIX_LEN..];
      assert stream == stream[..PREFIX_LEN] + tail;
      if stream == stream[..PREFIX_LEN] + (body + rest) {
        assert tail == body + rest;
        assert (body + rest)[..|body|] == body && (body + rest)[|body|..] == rest;
      }
    }
  }

  // A message fits a frame when its body is not empty and its length has at most four digits.
  predicate Frameable(p: Protocol)
    requires p.Valid()
  {
    1 <= |BodyBytes(p)| < 10000
  }

  lemma {:induction false} SplitAfter(a: seq<byte>, b: seq<byte>, c: seq<byte>)
    ensures ((a + b) + c)[..|a|] == a && ((a + b) + c)[|a|..] == b + c
  {
  }

  // A frame at the front of any stream: exactly its own bytes are consumed.
  lemma {:induction false} FrameThenRest(body: seq<byte>, rest: seq<byte>)
    requires 1 <= |body| < 10000
    ensures NextBody(Frame(body) + rest) == Some((body, rest))
  {
    AtoiOfPrefix(|body|);
    SplitAfter(Prefix(|body|), body, rest);
    assert (body + rest)[..|body|] == body && (body + rest)[|body|..] == rest;
  }

  // A frame comes back whole if and only if its body is neither empty nor longer than four digits
  // can say: a body of 10000 bytes is framed under a length of 1000.
  lemma {:induction false} FrameAlone(body: seq<byte>)
    ensures NextBody(Frame(body)) == Some((body, [])) <==> 1 <= |body| < 10000
  {
    if 1 <= |body| < 10000 {
      FrameThenRest(body, []);
      assert Frame(body) + [] == Frame(body);
    } else if |body| <= DATA_MAX_LEN {
      AtoiOfPrefix(|body|);
      assert Frame(body)[..PREFIX_LEN] == Prefix(|body|);
      assert Frame(body)[PREFIX_LEN..] == body;
    }
  }

  // One message alone, exactly: it is certain to arrive, with nothing left over, if and only if it
  // fits a frame and survives decoding.
  lemma {:induction false} FrameRoundTrip(p: Protocol)
    requires p.Valid()
    ensures NextMessage(Encode(p)) == Some((Message(Delivered(p)), [])) <==> Frameable(p) && Arrives(p)
  {
    var body := BodyBytes(p);
    FrameAlone(body);
    if Frameable(p) {
      DecodeExact(p);
    } else if |body| == DATA_MAX_LEN {
      CutBody(body, []);
      assert Frame(body) + [] == Frame(body);
    } else if |body| == 0 {
      AtoiOfPrefix(0);
      assert Frame(body)[..PREFIX_LEN] == Prefix(0);
    }
  }

  // ---------------------------------------------------------------- streams

  predicate AllValidMessages(ps: seq<Protocol>) {
    forall k :: 0 <= k < |ps| ==> ps[k].Valid()
  }

  // What a sender puts on the wire for messages sent one after the other.
  function EncodeStream(ps: seq<Protocol>): seq<byte>
    requires AllValidMessages(ps)
  {
    if ps == [] then [] else Encode(ps[0]) + EncodeStream(ps[1..])
  }

  // What a receiver makes of a stream, message by message.
  function DecodeStream(stream: seq<byte>): seq<Decoded>
    decreases |stream|
  {
    match NextMessage(stream)
    case None => []
    case Some((d, rest)) => [d] + DecodeStream(rest)
  }

  predicate AllSendable(ps: seq<Protocol>) {
    forall k :: 0 <= k < |ps| ==> Sendable(ps[k])
  }

  // ---------------------------------------------------------------- when a stream comes out as it went in

  function Expected(ps: seq<Protocol>): (r: seq<Decoded>)
    ensures |r| == |ps| && forall k :: 0 <= k < |ps| ==> r[k] == Message(Delivered(ps[k]))
  {
    seq(|ps|, k requires 0 <= k < |ps| => Message(Delivered(ps[k])))
  }

  // Too much to come out of the 1000 bytes that a frame of 10000 is announced with.
  predicate Big(p: Protocol) {
    1000 < |p.srvName| || 1000 < |p.data|
  }

  lemma {:induction false} BodySize(p: Protocol)
    requires p.Valid()
    ensures |BodyBytes(p)| <= 42 + |p.srvName| + |p.data|
  {
    var m := ToBody(p);
    NumberSizes(m);
    StringSizes(m);
    VarintSizeIsLength(m.magic);
    VarintSizeIsLength(m.version);
    VarintSizeIsLength(m.msgType);
    VarintSizeIsLength(m.reqId);
    VarintSizeIsLength(m.dataLen);
    VarintSizeIsLength(|p.srvName|);
    VarintSizeIsLength(|p.data|);
  }

  // The strings of a parsed message are pieces of its bytes.
  predicate NoLonger(m: Body, n: nat) {
    |m.data| <= n && (m.srvName.Some? ==> |m.srvName.value| <= n)
  }

  lemma {:induction false} ParseOneIsNoLonger(m: Body, bytes: seq<byte>, n: nat)
    requires bytes != [] && |bytes| <= n && NoLonger(m, n)
    ensures var turn := ParseOne(m, bytes); NoLonger(if turn.Next? then turn.m else turn.end.m, n)
  {
  }

  lemma {:induction false} ParseIsNoLonger(m: Body, bytes: seq<byte>, n: nat)
    requires |bytes| <= n && NoLonger(m, n)
    ensures NoLonger(Parse(m, bytes).m, n)
    decreases |bytes|
  {
    if bytes != [] {
      ParseOneIsNoLonger(m, bytes, n);
      var turn := ParseOne(m, bytes);
      if turn.Next? {
        ParseIsNoLonger(turn.m, turn.rest, n);
      }
    }
  }

  lemma {:induction false} ShortIsNotBig(body: seq<byte>, p: Protocol)
    requires |body| <= 1000 && Decode(body) == Message(Delivered(p))
    ensures !Big(p)
  {
    ParseIsNoLonger(DEFAULT, CString(body), 1000);
  }

  // What the receiver makes of the first frame of a stream, by the length of its body.
  lemma {:induction false} FirstFits(body: seq<byte>, rest: seq<byte>)
    requires 1 <= |body| < 10000
    ensures DecodeStream(Frame(body) + rest) == [Decode(body)] + DecodeStream(rest)
  {
    FrameThenRest(body, rest);
  }

  lemma {:induction false} FirstIsEmpty(rest: seq<byte>)
    ensures DecodeStream(Frame([]) + rest) == []
  {
    AtoiOfPrefix(0);
    assert (Frame([]) + rest)[..PREFIX_LEN] == Prefix(0);
  }

  lemma {:induction false} CutBody(body: seq<byte>, rest: seq<byte>)
    requires |body| == DATA_MAX_LEN
    ensures NextBody(Frame(body) + rest) == Some((body[..1000], body[1000..] + rest))
  {
    AtoiOfPrefix(|body|);
    SplitAfter(Prefix(|body|), body, rest);
    assert (body + rest)[..1000] == body[..1000] && (body + rest)[1000..] == body[1000..] + rest;
  }

  lemma {:induction false} FirstIsCut(body: seq<byte>, rest: seq<byte>)
    requires |body| == DATA_MAX_LEN
    ensures DecodeStream(Frame(body) + rest) == [Decode(body[..1000])] + DecodeStream(body[1000..] + rest)
  {
    CutBody(body, rest);
  }

  // A message whose body has 10000 bytes: the receiver takes 1000 of them for the whole.
  lemma TenThousandBytesAreCut()
    ensures var p := Protocol(MAGIC, VERSION, 3, 1, 9985, [], seq(9985, _ => 1));
            && p.Valid() && |BodyBytes(p)| == DATA_MAX_LEN
            && NextBody(Encode(p)) == Some((BodyBytes(p)[..1000], BodyBytes(p)[1000..]))
  {
    var p := Protocol(MAGIC, VERSION, 3, 1, 9985, [], seq(9985, _ => 1));
    var m := ToBody(p);
    NumberSizes(m);
    StringSizes(m);
    SmallVarints();
    CutBody(BodyBytes(p), []);
    assert Encode(p) + [] == Encode(p) && BodyBytes(p)[1000..] + [] == BodyBytes(p)[1000..];
  }

  lemma SmallVarints()
    ensures VarintSize(1) == VarintSize(3) == 1 && VarintSize(MAGIC) == VarintSize(9985) == 2
  {
    VarintSizeIsLength(1);
    VarintSizeIsLength(3);
    VarintSizeIsLength(MAGIC);
    VarintSizeIsLength(9985);
    assert |Varint(MAGIC)| == 1 + |Varint(1)| && |Varint(9985)| == 1 + |Varint(78)|;
  }

  // The first message that comes out of a stream is what was expected of q.
  predicate FirstIs(p: Protocol, rest: seq<byte>, q: Protocol)
    requires p.Valid()
  {
    var got := DecodeStream(Encode(p) + rest);
    got != [] && got[0] == Message(Delivered(q))
  }

  // Then either the frame of p was whole, and p is as big as q and, if it is q itself, arrives; or it
  // was cut short and q is not big.
  lemma {:induction false} FirstMatches(p: Protocol, rest: seq<byte>, q: Protocol)
    requires p.Valid()
    ensures FirstIs(p, rest, q) && |BodyBytes(p)| == DATA_MAX_LEN ==> !Big(q)
    ensures FirstIs(p, rest, q) && |BodyBytes(p)| < DATA_MAX_LEN ==>
              && Frameable(p) && (p == q ==> Arrives(p)) && (Big(q) ==> Big(p))
              && DecodeStream(Encode(p) + rest) == [Message(Delivered(q))] + DecodeStream(rest)
  {
    var body := BodyBytes(p);
    if body == [] {
      FirstIsEmpty(rest);
    } else if |body| == DATA_MAX_LEN {
      FirstIsCut(body, rest);
      if FirstIs(p, rest, q) {
        ShortIsNotBig(body[..1000], q);
      }
    } else if |body| < DATA_MAX_LEN {
      FirstFits(body, rest);
      DecodeExact(p);
    }
  }

  // The receiver of ps takes them for `want`.
  predicate Matches(ps: seq<Protocol>, want: seq<Protocol>)
    requires AllValidMessages(ps)
  {
    DecodeStream(EncodeStream(ps)) == Expected(want)
  }

  predicate Sendable(p: Protocol) {
    p.Valid() && Frameable(p) && Arrives(p)
  }

  lemma {:induction false} SameTail<T>(a: T, s: seq<T>, b: T, t: seq<T>)
    requires [a] + s == [b] + t
    ensures a == b && s == t
  {
    assert ([a] + s)[0] == a && ([b] + t)[0] == b;
    assert ([a] + s)[1..] == s && ([b] + t)[1..] == t;
  }

  // A message that was sent was taken for the one the receiver waited for.
  lemma {:induction false} SentMatches(p: Protocol, rest: seq<byte>, want: seq<Protocol>)
    requires p.Valid() && want != [] && (Big(want[0]) || want[0] == p)
    ensures |BodyBytes(p)| <= DATA_MAX_LEN && DecodeStream(Encode(p) + rest) == Expected(want) ==>
              && DecodeStream(rest) == Expected(want[1..])
              && (want[0] == p ==> Sendable(p)) && (Big(want[0]) ==> Big(p))
  {
    if |BodyBytes(p)| <= DATA_MAX_LEN && DecodeStream(Encode(p) + rest) == Expected(want) {
      ExpectedStep(want);
      BodySize(p);
      FirstMatches(p, rest, want[0]);
      var first := Message(Delivered(want[0]));
      SameTail(first, DecodeStream(rest), first, Expected(want[1..]));
    }
  }

  // The first message was too long to be sent, and the receiver waits on; or it was sent.
  lemma {:induction false} MatchStep(ps: seq<Protocol>, want: seq<Protocol>)
    requires AllValidMessages(ps) && ps != [] && want != [] && (Big(want[0]) || want[0] == ps[0])
    ensures Matches(ps, want) ==>
              || (Matches(ps[1..], want) && Big(ps[0]))
              || (&& Matches(ps[1..], want[1..])
                  && (want[0] == ps[0] ==> Sendable(ps[0])) && (Big(want[0]) ==> Big(ps[0])))
  {
    EncodeStreamStep(ps);
    if DATA_MAX_LEN < |BodyBytes(ps[0])| {
      BodySize(ps[0]);
    } else {
      SentMatches(ps[0], EncodeStream(ps[1..]), want);
    }
  }

  predicate AllBig(ps: seq<Protocol>) {
    forall k :: 0 <= k < |ps| ==> Big(ps[k])
  }

  // What is needed of a receiver below: it takes the messages sent for the ones it waits for, one at
  // a time, unless a message too big to be sent was passed over.
  ghost predicate OneByOne(takes: (seq<Protocol>, seq<Protocol>) -> bool, good: Protocol -> bool) {
    && (forall want :: takes([], want) ==> want == [])
    && (forall ps, want :: takes(ps, want) && ps != [] && want != [] && (Big(want[0]) || want[0] == ps[0]) ==>
          || (takes(ps[1..], want) && Big(ps[0]))
          || (takes(ps[1..], want[1..]) && (want[0] == ps[0] ==> good(ps[0])) && (Big(want[0]) ==> Big(ps[0]))))
  }

  // A message passed over leaves the receiver one behind. What it takes in its place would have
  // to be as big, and so on to the end of the stream, where nothing is left to be got.
  lemma {:induction false} NeverCatchesUp(takes: (seq<Protocol>, seq<Protocol>) -> bool, good: Protocol -> bool,
                                          owed: seq<Protocol>, ps: seq<Protocol>)
    requires OneByOne(takes, good) && owed != [] && AllBig(owed)
    ensures !takes(ps, owed + ps)
    decreases |ps|
  {
    if takes(ps, owed + ps) && ps != [] {
      var passedOver := takes(ps[1..], owed + ps) && Big(ps[0]);
      NeverCatchesUp(takes, good, OwedNext(owed, ps, !passedOver), ps[1..]);
    }
  }

  // What is owed after one more message.
  function OwedNext(owed: seq<Protocol>, ps: seq<Protocol>, sent: bool): (r: seq<Protocol>)
    requires owed != [] && ps != []
    ensures r != [] && r + ps[1..] == if sent then (owed + ps)[1..] else owed + ps
    ensures AllBig(owed) && Big(ps[0]) ==> AllBig(r)
  {
    (if sent then owed[1..] else owed) + [ps[0]]
  }

  lemma {:induction false} EncodeStreamStep(ps: seq<Protocol>)
    requires AllValidMessages(ps) && ps != []
    ensures EncodeStream(ps) == Encode(ps[0]) + EncodeStream(ps[1..])
    ensures DATA_MAX_LEN < |BodyBytes(ps[0])| ==> EncodeStream(ps) == EncodeStream(ps[1..])
  {
    assert DATA_MAX_LEN < |BodyBytes(ps[0])| ==> Encode(ps[0]) == [];
  }

  // One direction: what can be sent comes out as it went in.
  lemma {:induction false} SendableComesOut(ps: seq<Protocol>)
    requires AllSendable(ps)
    ensures Matches(ps, ps)
    decreases |ps|
  {
    if ps != [] {
      EncodeStreamStep(ps);
      FirstFits(BodyBytes(ps[0]), EncodeStream(ps[1..]));
      DecodeExact(ps[0]);
      SendableComesOut(ps[1..]);
      ExpectedStep(ps);
    }
  }

  lemma {:induction false} ExpectedStep(ps: seq<Protocol>)
    requires ps != []
    ensures Expected(ps) == [Message(Delivered(ps[0]))] + Expected(ps[1..])
  {
  }

  // The other: a receiver that goes one by one and takes every message for itself has got good ones.
  lemma {:induction false} OnlyGoodComeOut(takes: (seq<Protocol>, seq<Protocol>) -> bool, good: Protocol -> bool,
                                           ps: seq<Protocol>)
    requires OneByOne(takes, good) && takes(ps, ps)
    ensures forall k :: 0 <= k < |ps| ==> good(ps[k])
    decreases |ps|
  {
    if ps != [] {
      assert [ps[0]] + ps[1..] == ps;
      if takes(ps[1..], ps) && Big(ps[0]) {
        NeverCatchesUp(takes, good, [ps[0]], ps[1..]);
      }
      OnlyGoodComeOut(takes, good, ps[1..]);
    }
  }

  lemma {:induction false} OnlySendableComesOut(ps: seq<Protocol>)
    requires AllValidMessages(ps) && Matches(ps, ps)
    ensures AllSendable(ps)
  {
    var takes := (sent, want) => AllValidMessages(sent) && Matches(sent, want);
    forall sent, want | takes(sent, want) && sent != [] && want != [] && (Big(want[0]) || want[0] == sent[0])
      ensures || (takes(sent[1..], want) && Big(sent[0]))
              || (&& takes(sent[1..], want[1..])
                  && (want[0] == sent[0] ==> Sendable(sent[0])) && (Big(want[0]) ==> Big(sent[0])))
    {
      MatchStep(sent, want);
    }
    OnlyGoodComeOut(takes, p => Sendable(p), ps);
  }

  // Any number of messages back to back are certain to come out as they went in (the same types,
  // request ids, service names and data, in order, and nothing else) if and only if each of them
  // fits a frame and survives decoding. No message that is lost or mangled is ever made up for by
  // the others.
  lemma StreamRoundTrip(ps: seq<Protocol>)
    requires AllValidMessages(ps)
    ensures Matches(ps, ps) <==> AllSendable(ps)
  {
    if AllSendable(ps) {
      SendableComesOut(ps);
    } else if Matches(ps, ps) {
      OnlySendableComesOut(ps);
    }
  }

  // ---------------------------------------------------------------- under any chunking

  // The kernel lets a frame with a body of n bytes through: first the digits, then the body.
  predicate FrameFits(turns: seq<KernelTurn>, n: nat) {
    PREFIX_LEN <= Room(turns, In) && n <= Room(Rest(turns, PREFIX_LEN), In)
  }

  function AfterFrame(turns: seq<KernelTurn>, n: nat): seq<KernelTurn> {
    Rest(Rest(turns, PREFIX_LEN), n)
  }

  // It lets frames of these sizes through, one after the other.
  predicate Carries(turns: seq<KernelTurn>, sizes: seq<nat>)
    decreases |sizes|
  {
    sizes == [] || (FrameFits(turns, sizes[0]) && Carries(AfterFrame(turns, sizes[0]), sizes[1..]))
  }

  lemma {:induction false} CarriesStep(turns: seq<KernelTurn>, sizes: seq<nat>, i: nat, j: nat)
    requires i < j <= |sizes|
    ensures Carries(turns, sizes[i..j]) <==>
            FrameFits(turns, sizes[i]) && Carries(AfterFrame(turns, sizes[i]), sizes[i + 1..j])
  {
    assert sizes[i..j][0] == sizes[i] && sizes[i..j][1..] == sizes[i + 1..j];
  }

  lemma {:induction false} TakeOneMore<T>(s: seq<T>, i: nat)
    requires i < |s|
    ensures s[..i + 1] == s[..i] + [s[i]]
  {
  }

  function FrameBytes(sizes: seq<nat>): nat {
    if sizes == [] then 0 else PREFIX_LEN + sizes[0] + FrameBytes(sizes[1..])
  }

  // As many transfers as bytes are enough, whatever the size of each.
  lemma {:induction false} TransfersCarry(turns: seq<KernelTurn>, sizes: seq<nat>)
    requires FrameBytes(sizes) <= Transfers(turns) && forall i :: 0 <= i < |sizes| ==> 0 < sizes[i]
    ensures Carries(turns, sizes)
    decreases |sizes|
  {
    if sizes != [] {
      RestKeepsTransfers(turns, PREFIX_LEN);
      RestKeepsTransfers(Rest(turns, PREFIX_LEN), sizes[0]);
      TransfersCarry(AfterFrame(turns, sizes[0]), sizes[1..]);
    }
  }

  // The stream `from` begins with a frame of n bytes that decodes to d and is followed by `to`.
  predicate Leads(from: seq<byte>, n: nat, d: Decoded, to: seq<byte>) {
    var next := NextBody(from);
    next.Some? && 0 < |next.value.0| == n && Decode(next.value.0) == d && next.value.1 == to
  }

  // Receiving message by message: `wire[i]` is what is left of the stream after i messages.
  ghost predicate Unrolls(wire: seq<seq<byte>>, sizes: seq<nat>, want: seq<Decoded>) {
    && |wire| == |want| + 1 && |sizes| == |want|
    && forall i {:trigger Leads(wire[i], sizes[i], want[i], wire[i + 1])} :: 0 <= i < |want| ==>
         Leads(wire[i], sizes[i], want[i], wire[i + 1])
  }

  lemma {:induction false} LeadsLength(from: seq<byte>, n: nat, d: Decoded, to: seq<byte>)
    requires Leads(from, n, d, to)
    ensures 0 < n && |from| == PREFIX_LEN + n + |to|
  {
  }

  // Between two states of the stream lies a frame.
  predicate FramesApart(wire: seq<seq<byte>>, sizes: seq<nat>) {
    && |wire| == |sizes| + 1
    && forall i :: 0 <= i < |sizes| ==> 0 < sizes[i] && |wire[i]| == PREFIX_LEN + sizes[i] + |wire[i + 1]|
  }

  lemma {:induction false} UnrollsApart(wire: seq<seq<byte>>, sizes: seq<nat>, want: seq<Decoded>)
    requires Unrolls(wire, sizes, want)
    ensures FramesApart(wire, sizes)
  {
    forall i | 0 <= i < |sizes| ensures 0 < sizes[i] && |wire[i]| == PREFIX_LEN + sizes[i] + |wire[i + 1]| {
      LeadsLength(wire[i], sizes[i], want[i], wire[i + 1]);
    }
  }

  // The frames of messages i to j are the bytes between.
  lemma {:induction false} FrameBytesAre(wire: seq<seq<byte>>, sizes: seq<nat>, i: nat, j: nat)
    requires FramesApart(wire, sizes) && i <= j <= |sizes|
    ensures FrameBytes(sizes[i..j]) == |wire[i]| - |wire[j]|
    decreases j - i
  {
    if i < j {
      FrameBytesAre(wire, sizes, i + 1, j);
      assert sizes[i..j][0] == sizes[i] && sizes[i..j][1..] == sizes[i + 1..j];
    }
  }

  function BodySizes(ps: seq<Protocol>): (r: seq<nat>)
    requires AllValidMessages(ps)
    ensures |r| == |ps| && forall i :: 0 <= i < |ps| ==> r[i] == |BodyBytes(ps[i])|
  {
    seq(|ps|, i requires 0 <= i < |ps| => |BodyBytes(ps[i])|)
  }

  function WireOf(ps: seq<Protocol>): (r: seq<seq<byte>>)
    requires AllValidMessages(ps)
    ensures |r| == |ps| + 1 && forall i :: 0 <= i <= |ps| ==> r[i] == EncodeStream(ps[i..])
  {
    seq(|ps| + 1, i requires 0 <= i <= |ps| => EncodeStream(ps[i..]))
  }

  lemma {:induction false} SendableLeads(p: Protocol, rest: seq<byte>)
    requires Sendable(p)
    ensures Leads(Encode(p) + rest, |BodyBytes(p)|, Message(Delivered(p)), rest)
  {
    FrameThenRest(BodyBytes(p), rest);
    DecodeExact(p);
  }

  lemma {:induction false} WireUnrolls(ps: seq<Protocol>)
    requires AllSendable(ps)
    ensures Unrolls(WireOf(ps), BodySizes(ps), Expected(ps))
  {
    forall i | 0 <= i < |ps| ensures Leads(WireOf(ps)[i], BodySizes(ps)[i], Expected(ps)[i], WireOf(ps)[i + 1]) {
      EncodeStreamStep(ps[i..]);
      assert ps[i..][1..] == ps[i + 1..];
      SendableLeads(ps[i], EncodeStream(ps[i + 1..]));
    }
  }

  lemma {:induction false} EnoughTransfers(turns: seq<KernelTurn>, wire: seq<seq<byte>>, sizes: seq<nat>,
                                           want: seq<Decoded>, n: nat)
    requires Unrolls(wire, sizes, want) && n <= |want|
    ensures |wire[0]| - |wire[n]| <= Transfers(turns) ==> Carries(turns, sizes[0..n])
  {
    UnrollsApart(wire, sizes, want);
    FrameBytesAre(wire, sizes, 0, n);
    if |wire[0]| - |wire[n]| <= Transfers(turns) {
      TransfersCarry(turns, sizes[0..n]);
    }
  }

  datatype RecvResult =
    | Received(d: Decoded)
    | NoMessage            // nullptr
    | Closed               // nullptr, and the socket has been closed: the peer is gone
    | Undefined            // a negative length: the buffer would have a negative size
    | Pending              // the socket has not come back yet

  datatype SendResult = Answered(ok: bool) | SendPending

  class RpcProtocol {
    const socket: Socket

    constructor (socket: Socket)
      ensures this.socket == socket
    {
      this.socket := socket;
    }

    // Whatever the chunking, a message is received exactly when its frame has arrived whole and the
    // kernel lets it through; it is the next frame of the stream, and exactly the frame is consumed.
    method RecvProtocol() returns (r: RecvResult)
      modifies socket`incoming, socket`turns
      ensures var next := NextBody(old(socket.incoming));
              && (r.Received? <==> next.Some? && FrameFits(old(socket.turns), |next.value.0|))
              && (r.Received? ==>
                    && r.d == Decode(next.value.0) && socket.incoming == next.value.1
                    && socket.turns == AfterFrame(old(socket.turns), |next.value.0|))
      ensures PREFIX_LEN <= |old(socket.incoming)| && PREFIX_LEN <= Room(old(socket.turns), In) ==>
                var n := Atoi(old(socket.incoming)[..PREFIX_LEN]);
                (n == 0 ==> r == NoMessage) && (r == Undefined <==> n < 0)
      ensures |old(socket.incoming)| < PREFIX_LEN || Room(old(socket.turns), In) < PREFIX_LEN ==>
                r == NoMessage || r == Closed || r == Pending
      ensures r == Closed <==> exists k :: ZeroAt(old(socket.turns), k, |old(socket.incoming)|, PREFIX_LEN)
    {
      var head, digits := socket.Recvn(PREFIX_LEN);
      if head.StillWaiting? { return Pending; }
      if head.value == 0 { return Closed; }
      if head.value < PREFIX_LEN { return NoMessage; }
      var n := Atoi(digits);
      if n == 0 { return NoMessage; }
      if n < 0 { return Undefined; }
      var tail, body := socket.Recvn(n);
      if tail.StillWaiting? { return Pending; }
      if tail.value < n { return NoMessage; }
      r := Received(Decode(body));
    }

    // One message of a stream of them.
    method ReceiveNext(ghost i: nat, ghost wire: seq<seq<byte>>, ghost sizes: seq<nat>, ghost want: seq<Decoded>)
      returns (r: RecvResult)
      requires Unrolls(wire, sizes, want) && i < |want| && socket.incoming == wire[i]
      modifies socket`incoming, socket`turns
      ensures r.Received? <==> FrameFits(old(socket.turns), sizes[i])
      ensures r.Received? ==> r.d == want[i] && socket.incoming == wire[i + 1]
      ensures r.Received? ==> socket.turns == AfterFrame(old(socket.turns), sizes[i])
    {
      assert Leads(wire[i], sizes[i], want[i], wire[i + 1]);
      r := RecvProtocol();
    }

    // Receiving messages one after the other off any stream: however the bytes arrive, what the
    // receiver gets is the first of the messages that are in it, in order. It gets as many as it asked
    // for exactly if the kernel carries their frames, for which as many transfers as they have bytes
    // are enough; then the rest of the stream is untouched. A receiver that stops early may have lost
    // part of the frame it was in.
    method ReceiveMany(count: nat, ghost wire: seq<seq<byte>>, ghost sizes: seq<nat>, ghost want: seq<Decoded>)
      returns (messages: seq<Decoded>)
      requires Unrolls(wire, sizes, want) && count <= |want| && socket.incoming == wire[0]
      modifies socket`incoming, socket`turns
      ensures |messages| <= count && messages == want[..|messages|]
      ensures |messages| == count <==> Carries(old(socket.turns), sizes[0..count])
      ensures |messages| == count ==> socket.incoming == wire[count]
    {
      messages := [];
      while |messages| < count
        invariant |messages| <= count && messages == want[..|messages|]
        invariant socket.incoming == wire[|messages|]
        invariant Carries(old(socket.turns), sizes[0..count]) <==> Carries(socket.turns, sizes[|messages|..count])
        decreases count - |messages|
      {
        ghost var i := |messages|;
        CarriesStep(socket.turns, sizes, i, count);
        var r := ReceiveNext(i, wire, sizes, want);
        if !r.Received? { return; }
        TakeOneMore(want, i);
        messages := messages + [r.d];
      }
    }

    // The stream round trip under any chunking: what has arrived is the first messages sent. All that
    // were asked for arrive exactly if the kernel carries their frames, and so in particular if it
    // makes at least as many transfers as they have bytes, whatever the size of each, and however
    // many interrupts and waits come in between.
    method ReceiveUpTo(count: nat, ghost ps: seq<Protocol>) returns (messages: seq<Decoded>)
      requires AllSendable(ps) && socket.incoming == EncodeStream(ps) && count <= |ps|
      modifies socket`incoming, socket`turns
      ensures |messages| <= count && messages == Expected(ps)[..|messages|]
      ensures |messages| == count <==> Carries(old(socket.turns), BodySizes(ps)[0..count])
      ensures |messages| == count ==> socket.incoming == EncodeStream(ps[count..])
      ensures |EncodeStream(ps)| - |EncodeStream(ps[count..])| <= Transfers(old(socket.turns)) ==> |messages| == count
    {
      WireUnrolls(ps);
      assert ps[0..] == ps;
      EnoughTransfers(socket.turns, WireOf(ps), BodySizes(ps), Expected(ps), count);
      messages := ReceiveMany(count, WireOf(ps), BodySizes(ps), Expected(ps));
    }

    // The comparison `Send(...) < buf_len` is made on unsigned numbers, so the -1 of a failed send
    // is not seen: the answer is true for every frame that could be built, as soon as the send comes
    // back, sent or not. It means what it says exactly when the kernel takes all the bytes of the
    // frame before it fails.
    method SendProtocol(p: Option<Protocol>) returns (r: SendResult)
      requires p.Some? ==> p.value.Valid()
      modifies socket`outgoing, socket`turns
      ensures p == None || Encode(p.value) == [] ==> r == Answered(false) && socket.outgoing == old(socket.outgoing)
      ensures p.Some? && Encode(p.value) != [] ==>
                var frame, turns := Encode(p.value), old(socket.turns);
                && (r == Answered(true) <==> |frame| <= Room(turns, Out) || SomeFails(turns))
                && (r == SendPending <==> !(|frame| <= Room(turns, Out) || SomeFails(turns)))
                && (socket.outgoing == old(socket.outgoing) + frame <==> |frame| <= Room(turns, Out))
                && socket.outgoing == old(socket.outgoing) + frame[..Min(|frame|, Room(turns, Out))]
    {
      if p == None { return Answered(false); }
      var buf := Encode(p.value);
      if buf == [] { return Answered(false); }
      r := SendFrame(buf);
    }

    method SendFrame(buf: seq<byte>) returns (r: SendResult)
      requires 0 < |buf| < INT32_BOUND
      modifies socket`outgoing, socket`turns
      ensures var turns := old(socket.turns);
              && (r == Answered(true) <==> |buf| <= Room(turns, Out) || SomeFails(turns))
              && (r == SendPending <==> !(|buf| <= Room(turns, Out) || SomeFails(turns)))
              && (socket.outgoing == old(socket.outgoing) + buf <==> |buf| <= Room(turns, Out))
              && socket.outgoing == old(socket.outgoing) + buf[..Min(|buf|, Room(turns, Out))]
    {
      WholeExactly(socket.outgoing, buf, Min(|buf|, Room(socket.turns, Out)));
      var sent := socket.Send(buf);
      if sent.StillWaiting? { return SendPending; }
      r := Answered(!(AsUnsigned(sent.value) < |buf|));
    }
  }

  // A send that the kernel refuses outright: nothing goes out, and the answer is true.
  method FailedSendLooksSent() returns (r: SendResult, socket: Socket)
    ensures fresh(socket) && socket.outgoing == [] && r == Answered(true)
  {
    var p := Protocol(MAGIC, VERSION, 3, 1, 1, [], [5]);
    BodySize(p);
    socket := new Socket([], [Broken]);
    var rpc := new RpcProtocol(socket);
    r := rpc.SendProtocol(Some(p));
  }

  lemma WholeExactly(out: seq<byte>, buf: seq<byte>, n: nat)
    requires n <= |buf|
    ensures out + buf[..n] == out + buf <==> n == |buf|
  {
    if n == |buf| {
      assert buf[..n] == buf;
    } else {
      assert |out + buf[..n]| < |out + buf|;
    }
  }

  // int converted to unsigned int.
  function AsUnsigned(x: int): nat {
    x % UINT32_BOUND
  }
}
