/**
 * The BLE advertising-payload encoder, `advertising_payload` of abc.py.
 *
 * The payload is a sequence of AD structures in the format of the Bluetooth
 * Core Specification, Vol 3, Part C, Section 11: one length octet (the number
 * of octets that follow it), one AD type octet, then the AD data. The AD types
 * used are those of the Core Specification Supplement, Part A: Flags
 * (section 1.3), Complete Local Name (section 1.2), the complete 16-, 32- and
 * 128-bit Service UUID lists (section 1.1) and Appearance (section 1.12).
 * A legacy advertising payload holds at most 31 octets.
 */
module AdPayload {
  import opened Wrappers

  /** An octet. */
  type byte = x: int | 0 <= x < 256

  /** A UUID as `bytes(uuid)` gives it: its octets, 2, 4 or 16 of them. */
  type Uuid = seq<byte>

  const AdTypeFlags: byte := 0x01
  const AdTypeUuid16List: byte := 0x03
  const AdTypeUuid32List: byte := 0x05
  const AdTypeUuid128List: byte := 0x07
  const AdTypeCompleteName: byte := 0x09
  const AdTypeAppearance: byte := 0x19

  /** The legacy advertising data limit, in octets. */
  const MaxPayloadLength := 31

  /** One AD structure: its type and its data. */
  datatype AdStructure = AdStructure(adType: byte, value: seq<byte>)

  /** The `ValueError` raised for a payload over the limit. */
  datatype PayloadError = PayloadTooLarge

  // ---------------------------------------------------------------------------
  // The wire format

  /** `struct.pack("B", n + 1)`: MicroPython keeps the low octet, without a range check. */
  function LengthByte(n: nat): byte {
    (n + 1) % 256
  }

  /** What `_append` adds to the payload for one structure. */
  function Encode(s: AdStructure): seq<byte> {
    [LengthByte(|s.value|), s.adType] + s.value
  }

  /** The payload made of the given structures, in order. */
  function Serialize(ss: seq<AdStructure>): seq<byte> {
    if ss == [] then [] else Encode(ss[0]) + Serialize(ss[1..])
  }

  /** A structure whose length octet can state its length exactly. */
  predicate Fits(s: AdStructure) {
    |s.value| < 255
  }

  /**
   * A decoder for the format: split the octets on their length octets. A zero
   * length octet or one that points past the end is malformed.
   */
  function Parse(p: seq<byte>): Option<seq<AdStructure>>
    decreases |p|
  {
    if p == [] then Some([])
    else if p[0] == 0 || |p| < p[0] as int + 1 then None
    else
      var end := p[0] as int + 1;
      match Parse(p[end..])
      case None => None
      case Some(rest) => Some([AdStructure(p[1], p[2..end])] + rest)
  }

  lemma {:induction false} SerializeAppend(a: seq<AdStructure>, b: seq<AdStructure>)
    ensures Serialize(a + b) == Serialize(a) + Serialize(b)
  {
    if a == [] {
      assert a + b == b;
    } else {
      assert (a + b)[0] == a[0];
      assert (a + b)[1..] == a[1..] + b;
      SerializeAppend(a[1..], b);
    }
  }

  /** Every structure takes its data length plus two octets of the payload. */
  lemma {:induction false} SerializeLength(ss: seq<AdStructure>, i: nat)
    requires i < |ss|
    ensures |ss[i].value| + 2 <= |Serialize(ss)|
  {
    if i > 0 {
      SerializeLength(ss[1..], i - 1);
    }
  }

  /** Decoding one structure with an exact length octet, followed by anything. */
  lemma ParseCons(s: AdStructure, tail: seq<byte>)
    requires Fits(s)
    ensures Parse(Encode(s) + tail) == match Parse(tail)
      case None => None
      case Some(rest) => Some([s] + rest)
  {
    var p := Encode(s) + tail;
    var end := |s.value| + 2;
    assert p[0] as int + 1 == end;
    assert p[1] == s.adType;
    assert p[2..end] == s.value;
    assert p[end..] == tail;
  }

  /** A well-framed first structure is the encoding of what the decoder reads from it. */
  lemma EncodeSplit(p: seq<byte>)
    requires p != [] && p[0] != 0 && p[0] as int + 1 <= |p|
    ensures var end := p[0] as int + 1;
      && Fits(AdStructure(p[1], p[2..end]))
      && p == Encode(AdStructure(p[1], p[2..end])) + p[end..]
  {
    var end := p[0] as int + 1;
    assert LengthByte(|p[2..end]|) == p[0];
    assert p == [p[0], p[1]] + p[2..end] + p[end..];
  }

  /** Splitting on the length octets recovers exactly the structures that were appended. */
  lemma {:induction false} ParseSerialize(ss: seq<AdStructure>)
    requires forall i :: 0 <= i < |ss| ==> Fits(ss[i])
    ensures Parse(Serialize(ss)) == Some(ss)
  {
    if ss != [] {
      ParseCons(ss[0], Serialize(ss[1..]));
      ParseSerialize(ss[1..]);
      assert [ss[0]] + ss[1..] == ss;
    }
  }

  /** Conversely, whatever the decoder accepts is the serialization of what it returns. */
  lemma {:induction false} SerializeParse(p: seq<byte>, ss: seq<AdStructure>)
    requires Parse(p) == Some(ss)
    ensures Serialize(ss) == p
    ensures forall i :: 0 <= i < |ss| ==> Fits(ss[i])
    decreases |p|
  {
    if p != [] {
      var end := p[0] as int + 1;
      var s := AdStructure(p[1], p[2..end]);
      EncodeSplit(p);
      var rest := Parse(p[end..]).value;
      assert ss == [s] + rest;
      SerializeParse(p[end..], rest);
      assert ss[0] == s && ss[1..] == rest;
      forall i | 0 <= i < |ss| ensures Fits(ss[i]) {
        if i > 0 { assert ss[i] == rest[i - 1]; }
      }
    }
  }

  // ---------------------------------------------------------------------------
  // Strings: MicroPython appends a str by its UTF-8 encoding

  /** The UTF-8 encoding of one Unicode scalar value. */
  function Utf8Char(c: char): (r: seq<byte>)
    ensures 1 <= |r| <= 4
    ensures |r| == 1 <==> (c as int) < 0x80
  {
    var n := c as int;
    if n < 0x80 then [n]
    else if n < 0x800 then [0xC0 + n / 0x40, 0x80 + n % 0x40]
    else if n < 0x1_0000 then [0xE0 + n / 0x1000, 0x80 + (n / 0x40) % 0x40, 0x80 + n % 0x40]
    else [0xF0 + n / 0x4_0000, 0x80 + (n / 0x1000) % 0x40, 0x80 + (n / 0x40) % 0x40, 0x80 + n % 0x40]
  }

  /** The UTF-8 encoding of a string. */
  function Utf8(s: string): seq<byte> {
    if s == "" then [] else Utf8Char(s[0]) + Utf8(s[1..])
  }

  predicate IsAscii(s: string) {
    forall i :: 0 <= i < |s| ==> (s[i] as int) < 0x80
  }

  /** A string's encoding has as many octets as it has characters exactly when it is ASCII. */
  lemma {:induction false} Utf8Length(s: string)
    ensures |Utf8(s)| >= |s|
    ensures |Utf8(s)| == |s| <==> IsAscii(s)
  {
    if s != "" {
      Utf8Length(s[1..]);
      if IsAscii(s) {
        assert IsAscii(s[1..]) by {
          forall i | 0 <= i < |s[1..]| ensures (s[1..][i] as int) < 0x80 { assert s[1..][i] == s[i + 1]; }
        }
      } else if IsAscii(s[1..]) {
        var k :| 0 <= k < |s| && (s[k] as int) >= 0x80;
        if k > 0 { assert s[1..][k - 1] == s[k]; }
      }
    }
  }

  // ---------------------------------------------------------------------------
  // The structures `advertising_payload` appends

  /** The Flags data octet: LE Limited or General Discoverable, and BR/EDR support or not. */
  function FlagsValue(limitedDisc: bool, brEdr: bool): byte {
    (if limitedDisc then 0x01 else 0x02) + (if brEdr then 0x18 else 0x04)
  }

  function FlagsStructure(limitedDisc: bool, brEdr: bool): AdStructure {
    AdStructure(AdTypeFlags, [FlagsValue(limitedDisc, brEdr)])
  }

  /** A service list structure: a list type whose UUID size matches the data length. */
  predicate IsServiceList(s: AdStructure) {
    || (s.adType == AdTypeUuid16List && |s.value| == 2)
    || (s.adType == AdTypeUuid32List && |s.value| == 4)
    || (s.adType == AdTypeUuid128List && |s.value| == 16)
  }

  /** The structure appended for one UUID; UUIDs of other lengths append nothing. */
  function ServiceStructure(uuid: Uuid): Option<AdStructure> {
    if |uuid| == 2 then Some(AdStructure(AdTypeUuid16List, uuid))
    else if |uuid| == 4 then Some(AdStructure(AdTypeUuid32List, uuid))
    else if |uuid| == 16 then Some(AdStructure(AdTypeUuid128List, uuid))
    else None
  }

  /** The structures appended for a list of UUIDs, in list order. */
  function ServiceStructures(uuids: seq<Uuid>): (r: seq<AdStructure>)
    ensures |r| <= |uuids|
    ensures forall i :: 0 <= i < |r| ==> IsServiceList(r[i]) && r[i].value in uuids
  {
    if uuids == [] then []
    else
      var rest := ServiceStructures(uuids[1..]);
      match ServiceStructure(uuids[0])
      case None => rest
      case Some(s) => [s] + rest
  }

  /** The structures of a concatenated list are those of its parts, in order. */
  lemma {:induction false} ServiceStructuresAppend(a: seq<Uuid>, b: seq<Uuid>)
    ensures ServiceStructures(a + b) == ServiceStructures(a) + ServiceStructures(b)
  {
    if a == [] {
      assert a + b == b;
    } else {
      assert (a + b)[0] == a[0];
      assert (a + b)[1..] == a[1..] + b;
      ServiceStructuresAppend(a[1..], b);
    }
  }

  /** Each UUID of length 2, 4 or 16 gives a structure of type 3, 5 or 7 holding it; any other is skipped. */
  lemma ServiceStructuresOfOne(uuid: Uuid)
    ensures |uuid| == 2 ==> ServiceStructures([uuid]) == [AdStructure(AdTypeUuid16List, uuid)]
    ensures |uuid| == 4 ==> ServiceStructures([uuid]) == [AdStructure(AdTypeUuid32List, uuid)]
    ensures |uuid| == 16 ==> ServiceStructures([uuid]) == [AdStructure(AdTypeUuid128List, uuid)]
    ensures |uuid| !in {2, 4, 16} ==> ServiceStructures([uuid]) == []
  {
    assert [uuid][1..] == [];
  }

  function ServicesStructures(services: Option<seq<Uuid>>): seq<AdStructure> {
    if services.Some? && services.value != [] then ServiceStructures(services.value) else []
  }

  /** `struct.pack("<h", appearance)`: the low 16 bits, least significant octet first. */
  function AppearanceBytes(appearance: int): seq<byte> {
    var v := appearance % 0x1_0000;
    [v % 0x100, v / 0x100]
  }

  /** Reading two octets back as a little-endian signed 16-bit integer. */
  function Int16LE(b0: byte, b1: byte): int {
    var v := b0 + 0x100 * b1;
    if v < 0x8000 then v else v - 0x1_0000
  }

  /** An appearance in the signed 16-bit range is encoded losslessly. */
  lemma AppearanceRoundTrip(appearance: int)
    requires -0x8000 <= appearance < 0x8000
    ensures var b := AppearanceBytes(appearance); Int16LE(b[0], b[1]) == appearance
  {
    var v := appearance % 0x1_0000;
    assert v == if appearance < 0 then appearance + 0x1_0000 else appearance;
    assert v % 0x100 + 0x100 * (v / 0x100) == v;
  }

  /** Python truthiness of the `name` argument: neither `None` nor empty. */
  predicate NameGiven(name: Option<string>) {
    name.Some? && name.value != ""
  }

  /** The name structure, when `if name:` holds. */
  function NamePart(name: Option<string>): seq<AdStructure> {
    if NameGiven(name) then [AdStructure(AdTypeCompleteName, Utf8(name.value))] else []
  }

  /** The appearance structure, when `if appearance:` holds. */
  function AppearancePart(appearance: int): seq<AdStructure> {
    if appearance != 0 then [AdStructure(AdTypeAppearance, AppearanceBytes(appearance))] else []
  }

  /** The structures `advertising_payload` appends, in the order it appends them. */
  function Structures(limitedDisc: bool, brEdr: bool, name: Option<string>, services: Option<seq<Uuid>>, appearance: int): seq<AdStructure> {
    [FlagsStructure(limitedDisc, brEdr)] + NamePart(name) + ServicesStructures(services) + AppearancePart(appearance)
  }

  /** The outcome of `advertising_payload`: the payload, or the error for one over 31 octets. */
  function EncodePayload(limitedDisc: bool, brEdr: bool, name: Option<string>, services: Option<seq<Uuid>>, appearance: int): Result<seq<byte>, PayloadError> {
    var p := Serialize(Structures(limitedDisc, brEdr, name, services, appearance));
    if |p| > MaxPayloadLength then Err(PayloadTooLarge) else Ok(p)
  }

  /** The octets one optional structure contributes. */
  function EncodeIfAny(s: Option<AdStructure>): seq<byte> {
    if s.Some? then Encode(s.value) else []
  }

  /** One more UUID adds exactly what its own structure encodes to. */
  lemma ServiceStep(uuids: seq<Uuid>, i: nat)
    requires i < |uuids|
    ensures Serialize(ServiceStructures(uuids[..i + 1]))
         == Serialize(ServiceStructures(uuids[..i])) + EncodeIfAny(ServiceStructure(uuids[i]))
  {
    var single := [uuids[i]];
    assert uuids[..i + 1] == uuids[..i] + single;
    ServiceStructuresAppend(uuids[..i], single);
    assert single[1..] == [];
    var s := ServiceStructure(uuids[i]);
    assert ServiceStructures(single) == if s.Some? then [s.value] else [];
    SerializeAppend(ServiceStructures(uuids[..i]), ServiceStructures(single));
    if s.Some? {
      assert Serialize([s.value]) == Encode(s.value) + Serialize([]);
    }
  }

  /** The octets of at most one structure. */
  lemma SerializeAtMostOne(ss: seq<AdStructure>)
    requires |ss| <= 1
    ensures Serialize(ss) == if ss == [] then [] else Encode(ss[0])
  {
    if ss != [] {
      assert ss[1..] == [];
    }
  }

  /** The serialization of `Structures` is that of its parts, in the order they are appended. */
  lemma StructuresSerialize(limitedDisc: bool, brEdr: bool, name: Option<string>, services: Option<seq<Uuid>>, appearance: int,
                            flags: seq<byte>, named: seq<byte>, listed: seq<byte>, appeared: seq<byte>)
    requires flags == Encode(FlagsStructure(limitedDisc, brEdr))
    requires named == if NameGiven(name) then Encode(NamePart(name)[0]) else []
    requires listed == Serialize(ServicesStructures(services))
    requires appeared == if appearance != 0 then Encode(AppearancePart(appearance)[0]) else []
    ensures Serialize(Structures(limitedDisc, brEdr, name, services, appearance)) == flags + named + listed + appeared
  {
    var f := [FlagsStructure(limitedDisc, brEdr)];
    var n := NamePart(name);
    var v := ServicesStructures(services);
    SerializeAppend(f + n + v, AppearancePart(appearance));
    SerializeAppend(f + n, v);
    SerializeAppend(f, n);
    SerializeAtMostOne(f);
    SerializeAtMostOne(n);
    SerializeAtMostOne(AppearancePart(appearance));
  }

  /** The outcome for structures that serialize to `p`. */
  lemma EncodePayloadOf(limitedDisc: bool, brEdr: bool, name: Option<string>, services: Option<seq<Uuid>>, appearance: int, p: seq<byte>)
    requires Serialize(Structures(limitedDisc, brEdr, name, services, appearance)) == p
    ensures EncodePayload(limitedDisc, brEdr, name, services, appearance) == if |p| > MaxPayloadLength then Err(PayloadTooLarge) else Ok(p)
  {
  }

  /** `_append`: the payload grows by one structure of the given type and data. */
  method Append(payload: seq<byte>, adType: byte, value: seq<byte>) returns (r: seq<byte>)
    ensures r == payload + Encode(AdStructure(adType, value))
  {
    r := payload + [LengthByte(|value|), adType] + value;
  }

  /** Concatenation of octet strings regroups freely. */
  lemma AppendAssoc(a: seq<byte>, b: seq<byte>, c: seq<byte>)
    ensures (a + b) + c == a + (b + c)
  {
  }

  /** The `for uuid in services` loop: appends one list structure per UUID of length 2, 4 or 16. */
  method AppendServiceLists(payload: seq<byte>, uuids: seq<Uuid>) returns (r: seq<byte>)
    ensures r == payload + Serialize(ServiceStructures(uuids))
  {
    r := payload;
    ghost var listed: seq<byte> := [];
    var i := 0;
    assert uuids[..0] == [];
    while i < |uuids|
      invariant 0 <= i <= |uuids|
      invariant listed == Serialize(ServiceStructures(uuids[..i]))
      invariant r == payload + listed
    {
      var b := uuids[i];
      ServiceStep(uuids, i);
      ghost var added := EncodeIfAny(ServiceStructure(b));
      if |b| == 2 {
        r := Append(r, AdTypeUuid16List, b);
      } else if |b| == 4 {
        r := Append(r, AdTypeUuid32List, b);
      } else if |b| == 16 {
        r := Append(r, AdTypeUuid128List, b);
      }
      AppendAssoc(payload, listed, added);
      listed := listed + added;
      i := i + 1;
    }
    assert uuids[..i] == uuids;
  }

  /**
   * `advertising_payload`: grows the payload structure by structure, looping
   * over the service UUIDs, and rejects it when it exceeds 31 octets.
   */
  method AdvertisingPayload(limitedDisc: bool, brEdr: bool, name: Option<string>, services: Option<seq<Uuid>>, appearance: int)
    returns (r: Result<seq<byte>, PayloadError>)
    ensures r == EncodePayload(limitedDisc, brEdr, name, services, appearance)
  {
    ghost var flags := Encode(FlagsStructure(limitedDisc, brEdr));
    var payload := Append([], AdTypeFlags, [FlagsValue(limitedDisc, brEdr)]);
    assert payload == flags;
    ghost var named: seq<byte> := [];
    if name.Some? && name.value != "" {
      named := Encode(AdStructure(AdTypeCompleteName, Utf8(name.value)));
      payload := Append(payload, AdTypeCompleteName, Utf8(name.value));
    }
    ghost var head := payload;
    assert head == flags + named;
    ghost var listed: seq<byte> := [];
    if services.Some? && services.value != [] {
      listed := Serialize(ServiceStructures(services.value));
      payload := AppendServiceLists(payload, services.value);
    }
    ghost var body := payload;
    assert body == head + listed;
    ghost var appeared: seq<byte> := [];
    if appearance != 0 {
      appeared := Encode(AdStructure(AdTypeAppearance, AppearanceBytes(appearance)));
      payload := Append(payload, AdTypeAppearance, AppearanceBytes(appearance));
    }
    assert payload == body + appeared;
    StructuresSerialize(limitedDisc, brEdr, name, services, appearance, flags, named, listed, appeared);
    EncodePayloadOf(limitedDisc, brEdr, name, services, appearance, payload);
    if |payload| > MaxPayloadLength {
      return Err(PayloadTooLarge);
    }
    return Ok(payload);
  }

  // ---------------------------------------------------------------------------
  // What a returned payload is

  /** A returned payload never exceeds 31 octets, and every oversized encoding is rejected. */
  lemma PayloadLimit(limitedDisc: bool, brEdr: bool, name: Option<string>, services: Option<seq<Uuid>>, appearance: int)
    ensures var r := EncodePayload(limitedDisc, brEdr, name, services, appearance);
      && (r.Ok? ==> |r.value| <= MaxPayloadLength)
      && (r.Err? <==> |Serialize(Structures(limitedDisc, brEdr, name, services, appearance))| > MaxPayloadLength)
  {
  }

  /** A returned payload splits back, on its length octets, into exactly the appended structures. */
  lemma {:induction false} PayloadRoundTrip(limitedDisc: bool, brEdr: bool, name: Option<string>, services: Option<seq<Uuid>>, appearance: int)
    requires EncodePayload(limitedDisc, brEdr, name, services, appearance).Ok?
    ensures Parse(EncodePayload(limitedDisc, brEdr, name, services, appearance).value)
         == Some(Structures(limitedDisc, brEdr, name, services, appearance))
  {
    var ss := Structures(limitedDisc, brEdr, name, services, appearance);
    forall i | 0 <= i < |ss| ensures Fits(ss[i]) {
      SerializeLength(ss, i);
    }
    ParseSerialize(ss);
  }

  /** The payload opens with the Flags structure; with the default arguments it is `02 01 06`. */
  lemma {:induction false} FlagsFirst(limitedDisc: bool, brEdr: bool, name: Option<string>, services: Option<seq<Uuid>>, appearance: int)
    requires EncodePayload(limitedDisc, brEdr, name, services, appearance).Ok?
    ensures var p := EncodePayload(limitedDisc, brEdr, name, services, appearance).value;
      && |p| >= 3 && p[..3] == [2, AdTypeFlags, FlagsValue(limitedDisc, brEdr)]
      && (!limitedDisc && !brEdr ==> p[..3] == [0x02, 0x01, 0x06])
  {
    var ss := Structures(limitedDisc, brEdr, name, services, appearance);
    SerializeAppend([ss[0]], ss[1..]);
    assert [ss[0]] + ss[1..] == ss;
    assert Serialize([ss[0]]) == Encode(ss[0]);
  }

  /** A Complete Local Name structure is present exactly when a name is given, and it holds the name. */
  lemma NameStructure(limitedDisc: bool, brEdr: bool, name: Option<string>, services: Option<seq<Uuid>>, appearance: int)
    ensures var ss := Structures(limitedDisc, brEdr, name, services, appearance);
      && ((exists i :: 0 <= i < |ss| && ss[i].adType == AdTypeCompleteName) <==> NameGiven(name))
      && (NameGiven(name) ==> ss[1] == AdStructure(AdTypeCompleteName, Utf8(name.value)))
  {
    var ss := Structures(limitedDisc, brEdr, name, services, appearance);
    var listed := ServicesStructures(services);
    var nameless := listed + AppearancePart(appearance);
    assert ss == [FlagsStructure(limitedDisc, brEdr)] + NamePart(name) + nameless;
    if !NameGiven(name) {
      forall i | 0 <= i < |ss| ensures ss[i].adType != AdTypeCompleteName {
        if i > 0 {
          assert ss[i] == nameless[i - 1];
          if i - 1 < |listed| {
            assert IsServiceList(listed[i - 1]);
          }
        }
      }
    } else {
      assert ss[1] == NamePart(name)[0];
    }
  }

  /** An Appearance structure is last exactly when the appearance is non-zero, holding its two octets. */
  lemma AppearanceStructure(limitedDisc: bool, brEdr: bool, name: Option<string>, services: Option<seq<Uuid>>, appearance: int)
    ensures var ss := Structures(limitedDisc, brEdr, name, services, appearance);
      && ((exists i :: 0 <= i < |ss| && ss[i].adType == AdTypeAppearance) <==> appearance != 0)
      && (appearance != 0 ==> ss[|ss| - 1] == AdStructure(AdTypeAppearance, AppearanceBytes(appearance)))
  {
    var ss := Structures(limitedDisc, brEdr, name, services, appearance);
    var front := [FlagsStructure(limitedDisc, brEdr)]
      + (if NameGiven(name) then [AdStructure(AdTypeCompleteName, Utf8(name.value))] else [])
      + ServicesStructures(services);
    assert ss == front + (if appearance != 0 then [AdStructure(AdTypeAppearance, AppearanceBytes(appearance))] else []);
    forall i | 0 <= i < |front| ensures front[i].adType != AdTypeAppearance {
      if i >= |front| - |ServicesStructures(services)| {
        assert IsServiceList(ServicesStructures(services)[i - (|front| - |ServicesStructures(services)|)]);
      }
    }
    if appearance == 0 {
      assert ss == front;
    } else {
      assert ss[|ss| - 1].adType == AdTypeAppearance;
    }
  }

  // ---------------------------------------------------------------------------
  // The payload CharacteristicHandler advertises

  /** The octets of the Nordic UART service UUID 6E400001-B5A3-F393-E0A9-E50E24DCCA9E, least significant first. */
  const UartServiceUuid: Uuid :=
    [0x9E, 0xCA, 0xDC, 0x24, 0x0E, 0xE5, 0xA9, 0xE0, 0x93, 0xF3, 0xA3, 0xB5, 0x01, 0x00, 0x40, 0x6E]

  /** `advertising_payload(name="mpy-uart", services=[_UART_UUID])` is accepted and fills the 31 octets exactly. */
  lemma UartPayloadFits()
    ensures var r := EncodePayload(false, false, Some("mpy-uart"), Some([UartServiceUuid]), 0);
      r.Ok? && |r.value| == MaxPayloadLength
  {
    var name := "mpy-uart";
    assert IsAscii(name);
    Utf8Length(name);
    ServiceStructuresOfOne(UartServiceUuid);
    var f := FlagsStructure(false, false);
    var n := AdStructure(AdTypeCompleteName, Utf8(name));
    var u := AdStructure(AdTypeUuid128List, UartServiceUuid);
    assert Structures(false, false, Some(name), Some([UartServiceUuid]), 0) == [f] + [n] + [u];
    SerializeAppend([f] + [n], [u]);
    SerializeAppend([f], [n]);
    SerializeAtMostOne([f]);
    SerializeAtMostOne([n]);
    SerializeAtMostOne([u]);
  }

  // ---------------------------------------------------------------------------
  // The name structure as the source frames it

  /**
   * The name structure as abc.py:22 and :29 build it: the length octet comes
   * from `len(name)`, which counts characters, while the data is the name's
   * UTF-8 octets.
   */
  function NameStructureAsWritten(name: string): seq<byte> {
    [LengthByte(|name|), AdTypeCompleteName] + Utf8(name)
  }

  /** For an ASCII name the source's framing is the correct one. */
  lemma AsciiNameFramedCorrectly(name: string)
    requires IsAscii(name)
    ensures NameStructureAsWritten(name) == Encode(AdStructure(AdTypeCompleteName, Utf8(name)))
  {
    Utf8Length(name);
  }

  /** For any other name short enough to frame, the source's length octet miscounts the data. */
  lemma NonAsciiNameMisframed(name: string)
    requires !IsAscii(name) && |Utf8(name)| < 255
    ensures NameStructureAsWritten(name)[0] != |Utf8(name)| + 1
  {
    Utf8Length(name);
  }

  /** "é": the source's payload `02 01 06 02 09 C3 A9` does not split back into structures. */
  lemma AccentedNameUnparseable()
    ensures Parse(Encode(FlagsStructure(false, false)) + NameStructureAsWritten("é")) == None
  {
    assert Utf8("é") == [0xC3, 0xA9];
    var p := Encode(FlagsStructure(false, false)) + NameStructureAsWritten("é");
    assert p == [0x02, 0x01, 0x06, 0x02, 0x09, 0xC3, 0xA9];
    assert p[3..] == [0x02, 0x09, 0xC3, 0xA9];
    assert p[3..][3..] == [0xA9];
    assert Parse([0xA9]) == None;
    assert Parse(p[3..]) == None;
  }
}
