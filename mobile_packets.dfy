/**
 * The reference layouts of the outgoing mobile packets: the bytes the packet
 * tests expect, built the way the tests build them, by writing fields one
 * after the other into a stack-allocated span with a running position.
 *
 * Helpers whose bodies are not part of this model (the attribute-pair
 * writers, the location writer, packet flags, notoriety, visibility, the
 * synthetic hair serials) are inputs of fixed byte width.
 */
module MobilePackets {
  import opened Wrappers
  import opened Wire
  import opened Geometry
  import Network

  // ---------------------------------------------------------------------
  // Entities and injected helpers

  /** An attribute pair as a writer encodes it: always 4 bytes. */
  type AttributeBytes = s: seq<byte> | |s| == 4 witness [0, 0, 0, 0]

  /** A location as the writer encodes it: always 5 bytes. */
  type LocationBytes = s: seq<byte> | |s| == 5 witness [0, 0, 0, 0, 0]

  /** An equipment layer slot. */
  type LayerId = l: int | 0 <= l < 256

  /**
   * The writer's byte order and the field writers whose bodies are not
   * modelled: WriteAttribute, WriteReverseAttribute and the Point3D write.
   */
  datatype Encoders = Encoders(
    order: ByteOrder,
    attribute: (int, int, bool) -> AttributeBytes,
    reverseAttribute: (int, int, bool) -> AttributeBytes,
    location: Point3D -> LocationBytes)

  datatype Item = Item(serial: int, itemId: int, hue: int, layer: LayerId, deleted: bool)

  /** The state of a mobile that the mobile packets read. */
  datatype Mobile = Mobile(
    serial: int,
    body: int,
    location: Point3D,
    direction: int,
    hue: int,
    solidHueOverride: int,
    name: seq<byte>,
    hits: int, hitsMax: int,
    mana: int, manaMax: int,
    stam: int, stamMax: int,
    items: seq<Item>,
    hairItemId: int, hairHue: int,
    facialHairItemId: int, facialHairHue: int)

  /**
   * The hue a mobile, or an entry it wears, is drawn in: a non-negative
   * solid hue override of the mobile wins over `hue`.
   */
  function EntryHue(m: Mobile, hue: int): int
  {
    if m.solidHueOverride >= 0 then m.solidHueOverride else hue
  }

  /** The hue the mobile itself is drawn in. */
  function DisplayHue(m: Mobile): int
  {
    EntryHue(m, m.hue)
  }

  // ---------------------------------------------------------------------
  // Field encodings

  function Zeros(n: nat): (r: seq<byte>)
    ensures |r| == n
  {
    seq(n, _ => 0)
  }

  /** A byte field: the value truncated to 8 bits. */
  function U8(v: int): (r: seq<byte>)
    ensures |r| == 1
  {
    LeBytes(v, 1)
  }

  /** A boolean field: 1 for true, 0 for false. */
  function Flag(b: bool): (r: seq<byte>)
    ensures r == [if b then 1 else 0]
  {
    U8(if b then 1 else 0)
  }

  /** Fixed-width text: the first `size` bytes of `text`, zero-padded. */
  function AsciiFixed(text: seq<byte>, size: nat): (r: seq<byte>)
    ensures |r| == size
    ensures forall i :: 0 <= i < size ==> r[i] == if i < |text| then text[i] else 0
  {
    if |text| >= size then text[..size] else text + Zeros(size - |text|)
  }

  // ---------------------------------------------------------------------
  // Movement, name and animation

  /** The old movement packet: id 0x77 and eight fields. */
  function MobileMovingOld(enc: Encoders, m: Mobile, flags: int, notoriety: int): (r: seq<byte>)
    ensures |r| == 17
  {
    U8(0x77) + U32(enc.order, m.serial) + U16(enc.order, m.body) + enc.location(m.location)
    + U8(m.direction) + U16(enc.order, m.hue) + U8(flags) + U8(notoriety)
  }

  /**
   * The old movement packet in field order: id, serial, body, location,
   * direction, hue, flags and notoriety.
   */
  lemma MobileMovingOldFields(enc: Encoders, m: Mobile, flags: int, notoriety: int)
    ensures var r := MobileMovingOld(enc, m, flags, notoriety);
            r[..1] == U8(0x77) && r[1..5] == U32(enc.order, m.serial) && r[5..7] == U16(enc.order, m.body)
            && r[7..12] == enc.location(m.location) && r[12..13] == U8(m.direction)
            && r[13..15] == U16(enc.order, m.hue) && r[15..16] == U8(flags) && r[16..] == U8(notoriety)
  {
    var r := MobileMovingOld(enc, m, flags, notoriety);
    var upToSerial := U8(0x77) + U32(enc.order, m.serial);
    var upToBody := upToSerial + U16(enc.order, m.body);
    var upToLocation := upToBody + enc.location(m.location);
    var upToDirection := upToLocation + U8(m.direction);
    var upToHue := upToDirection + U16(enc.order, m.hue);
    var upToFlags := upToHue + U8(flags);
    assert r == upToFlags + U8(notoriety);
    assert r[..16] == upToFlags && r[16..] == U8(notoriety);
    assert upToFlags[..15] == upToHue && upToFlags[15..] == U8(flags);
    assert upToHue[..13] == upToDirection && upToHue[13..] == U16(enc.order, m.hue);
    assert upToDirection[..12] == upToLocation && upToDirection[12..] == U8(m.direction);
    assert upToLocation[..7] == upToBody && upToLocation[7..] == enc.location(m.location);
    assert upToBody[..5] == upToSerial && upToBody[5..] == U16(enc.order, m.body);
    assert upToSerial[..1] == U8(0x77) && upToSerial[1..] == U32(enc.order, m.serial);
  }

  /** The name packet: id 0x98, length 37, serial, 29 bytes of name, a zero. */
  function MobileName(enc: Encoders, m: Mobile): (r: seq<byte>)
    ensures |r| == 37
  {
    U8(0x98) + U16(enc.order, 0x25) + U32(enc.order, m.serial) + AsciiFixed(m.name, 29) + U8(0)
  }

  /** The length field of the name packet is the packet's size; the last byte is zero. */
  lemma MobileNameLength(enc: Encoders, m: Mobile)
    ensures var r := MobileName(enc, m);
            r[1..3] == U16(enc.order, |r|) && r[36] == 0
  {
    var r := MobileName(enc, m);
    assert r[1..3] == U16(enc.order, 0x25);
  }

  /** The name field holds the first 29 bytes of the name, zero-padded. */
  lemma MobileNameText(enc: Encoders, m: Mobile)
    ensures var r := MobileName(enc, m);
            forall i :: 0 <= i < 29 ==> r[7 + i] == if i < |m.name| then m.name[i] else 0
  {
    var r := MobileName(enc, m);
    assert r[7..36] == AsciiFixed(m.name, 29);
  }

  /** The animation packet: id 0x6E and seven fields, 14 bytes. */
  function MobileAnimation(enc: Encoders, serial: int, action: int, frameCount: int,
                                repeatCount: int, reverse: bool, repeat: bool, delay: int): (r: seq<byte>)
    ensures |r| == 14
  {
    U8(0x6E) + AnimationFields(enc, serial, action, frameCount)
    + U16(enc.order, repeatCount) + Flag(reverse) + Flag(repeat) + U8(delay)
  }

  /** The fields both animation packets share: serial, action and frame count. */
  function AnimationFields(enc: Encoders, serial: int, action: int, frameCount: int): (r: seq<byte>)
    ensures |r| == 8
    ensures r[..4] == U32(enc.order, serial) && r[4..6] == U16(enc.order, action)
            && r[6..] == U16(enc.order, frameCount)
  {
    var serialAction := U32(enc.order, serial) + U16(enc.order, action);
    assert serialAction[..4] == U32(enc.order, serial) && serialAction[4..] == U16(enc.order, action);
    serialAction + U16(enc.order, frameCount)
  }

  /** The new animation packet: id 0xE2 and four fields, 10 bytes. */
  function NewMobileAnimation(enc: Encoders, serial: int, action: int, frameCount: int, delay: int): (r: seq<byte>)
    ensures |r| == 10
  {
    U8(0xE2) + AnimationFields(enc, serial, action, frameCount) + U8(delay)
  }

  /**
   * Both animation packets carry the serial, action and frame count at
   * bytes 1 to 8, and the delay last.
   */
  lemma AnimationSerial(enc: Encoders, serial: int, action: int, frameCount: int,
                        repeatCount: int, reverse: bool, repeat: bool, delay: int)
    ensures var a := MobileAnimation(enc, serial, action, frameCount, repeatCount, reverse, repeat, delay);
            var n := NewMobileAnimation(enc, serial, action, frameCount, delay);
            a[1..9] == n[1..9] == AnimationFields(enc, serial, action, frameCount)
            && a[13] == n[9] == U8(delay)[0]
  {
    var a := MobileAnimation(enc, serial, action, frameCount, repeatCount, reverse, repeat, delay);
    var fields := AnimationFields(enc, serial, action, frameCount);
    var rest := U16(enc.order, repeatCount) + Flag(reverse) + Flag(repeat) + U8(delay);
    assert a == U8(0x6E) + fields + rest;
  }

  // ---------------------------------------------------------------------
  // Health bars and attribute packets

  /** Poison bar: id 0x17, length 12, serial, 0x10001, then level + 1 (0 for none). */
  function HealthbarPoison(enc: Encoders, serial: int, poisonLevel: Option<int>): (r: seq<byte>)
    ensures |r| == 12
  {
    U8(0x17) + U16(enc.order, 12) + U32(enc.order, serial) + U32(enc.order, 0x10001)
    + U8((match poisonLevel case Some(level) => level case None => -1) + 1)
  }

  /** Yellow bar: id 0x17, length 12, serial, 0x10002, then blessed-or-yellow. */
  function HealthbarYellow(enc: Encoders, serial: int, blessed: bool, yellowHealthbar: bool): (r: seq<byte>)
    ensures |r| == 12
  {
    U8(0x17) + U16(enc.order, 12) + U32(enc.order, serial) + U32(enc.order, 0x10002)
    + Flag(blessed || yellowHealthbar)
  }

  /**
   * Both health bar packets share a header, whose length field is their
   * size, and differ in the bar kind: 0x10001 for poison, 0x10002 for yellow.
   */
  lemma HealthbarHeader(enc: Encoders, serial: int, poisonLevel: Option<int>, blessed: bool, yellowHealthbar: bool)
    ensures var p := HealthbarPoison(enc, serial, poisonLevel);
            var y := HealthbarYellow(enc, serial, blessed, yellowHealthbar);
            p[..7] == y[..7] && p[1..3] == U16(enc.order, |p|)
            && p[7..11] == U32(enc.order, 0x10001) && y[7..11] == U32(enc.order, 0x10002)
  {
    var p := HealthbarPoison(enc, serial, poisonLevel);
    var y := HealthbarYellow(enc, serial, blessed, yellowHealthbar);
    assert p[1..3] == U16(enc.order, 12);
    assert p[7..11] == U32(enc.order, 0x10001);
    assert y[7..11] == U32(enc.order, 0x10002);
    assert p[..7] == y[..7];
  }

  /** The poison bar's last byte is the poison level plus one, or 0 without poison. */
  lemma HealthbarPoisonLevel(enc: Encoders, serial: int, poisonLevel: Option<int>)
    ensures var p := HealthbarPoison(enc, serial, poisonLevel);
            p[11..] == U8(match poisonLevel case Some(level) => level + 1 case None => 0)
  {
  }

  /** The yellow bar's last byte is 1 exactly when the mobile is blessed or has a yellow bar. */
  lemma HealthbarYellowFlag(enc: Encoders, serial: int, blessed: bool, yellowHealthbar: bool)
    ensures var y := HealthbarYellow(enc, serial, blessed, yellowHealthbar);
            (y[11] == 1 <==> blessed || yellowHealthbar) && (y[11] == 0 <==> !blessed && !yellowHealthbar)
  {
    var y := HealthbarYellow(enc, serial, blessed, yellowHealthbar);
    assert y[11..] == Flag(blessed || yellowHealthbar);
  }

  /** The three bar packets. */
  datatype Bar = Hits | Mana | Stam

  function BarPacketId(bar: Bar): byte
  {
    match bar
    case Hits => 0xA1
    case Mana => 0xA2
    case Stam => 0xA3
  }

  /** The (current, maximum) pair a bar packet reports. */
  function BarValues(m: Mobile, bar: Bar): (int, int)
  {
    match bar
    case Hits => (m.hits, m.hitsMax)
    case Mana => (m.mana, m.manaMax)
    case Stam => (m.stam, m.stamMax)
  }

  /** A bar packet: its id, the serial, one attribute pair; the N variant normalises. */
  function MobileBar(enc: Encoders, m: Mobile, bar: Bar, normalize: bool): (r: seq<byte>)
    ensures |r| == 9
  {
    var (current, maximum) := BarValues(m, bar);
    [BarPacketId(bar)] + U32(enc.order, m.serial) + enc.attribute(current, maximum, normalize)
  }

  /** A bar packet is its id, the serial and the pair of the bar's current and maximum values. */
  lemma MobileBarFields(enc: Encoders, m: Mobile, bar: Bar, normalize: bool)
    ensures var r := MobileBar(enc, m, bar, normalize);
            r[0] == BarPacketId(bar) && r[1..5] == U32(enc.order, m.serial)
            && r[5..] == enc.attribute(BarValues(m, bar).0, BarValues(m, bar).1, normalize)
  {
    var r := MobileBar(enc, m, bar, normalize);
    var head := [BarPacketId(bar)] + U32(enc.order, m.serial);
    assert r == head + enc.attribute(BarValues(m, bar).0, BarValues(m, bar).1, normalize);
    assert r[..5] == head;
  }

  /** The attributes packet: id 0x2D, the serial, then hits, mana and stamina pairs. */
  function MobileAttributes(enc: Encoders, m: Mobile, normalize: bool): (r: seq<byte>)
    ensures |r| == 17
  {
    U8(0x2D) + U32(enc.order, m.serial) + enc.attribute(m.hits, m.hitsMax, normalize)
    + enc.attribute(m.mana, m.manaMax, normalize) + enc.attribute(m.stam, m.stamMax, normalize)
  }

  /** The attributes packet carries, after its header, the three bar pairs in order. */
  lemma AttributesAreBars(enc: Encoders, m: Mobile, normalize: bool)
    ensures var a := MobileAttributes(enc, m, normalize);
            a[1..5] == MobileBar(enc, m, Hits, normalize)[1..5]
            && a[5..9] == MobileBar(enc, m, Hits, normalize)[5..]
            && a[9..13] == MobileBar(enc, m, Mana, normalize)[5..]
            && a[13..] == MobileBar(enc, m, Stam, normalize)[5..]
  {
    var a := MobileAttributes(enc, m, normalize);
    assert a[1..5] == U32(enc.order, m.serial);
    assert a[5..9] == enc.attribute(m.hits, m.hitsMax, normalize);
    assert a[9..13] == enc.attribute(m.mana, m.manaMax, normalize);
    assert a[13..] == enc.attribute(m.stam, m.stamMax, normalize);
  }

  // ---------------------------------------------------------------------
  // Mobile update

  /**
   * The update packet, 19 bytes. Its two unknown fields are zero, except
   * that a build without local zero initialisation writes 2 into the second.
   */
  function MobileUpdate(enc: Encoders, m: Mobile, flags: int, noLocalInit: bool): (r: seq<byte>)
    ensures |r| == 19
  {
    U8(0x20) + U32(enc.order, m.serial) + U16(enc.order, m.body) + U8(0)
    + U16(enc.order, DisplayHue(m)) + U8(flags) + U16(enc.order, m.location.x) + U16(enc.order, m.location.y)
    + (if noLocalInit then U16(enc.order, 2) else Zeros(2)) + U8(m.direction) + U8(m.location.z)
  }

  /** The update packet's hue field: the solid override when non-negative, else the hue. */
  lemma MobileUpdateHue(enc: Encoders, m: Mobile, flags: int, noLocalInit: bool)
    ensures var r := MobileUpdate(enc, m, flags, noLocalInit);
            r[8..10] == U16(enc.order, EntryHue(m, m.hue))
  {
    var r := MobileUpdate(enc, m, flags, noLocalInit);
    assert r[8..10] == U16(enc.order, DisplayHue(m));
  }

  /**
   * The update packet's unknown fields: byte 7 is zero, and bytes 15 and 16
   * hold 2 in a build without local zero initialisation and 0 otherwise.
   */
  lemma MobileUpdateReserved(enc: Encoders, m: Mobile, flags: int, noLocalInit: bool)
    ensures var r := MobileUpdate(enc, m, flags, noLocalInit);
            r[7] == 0 && r[15..17] == U16(enc.order, if noLocalInit then 2 else 0)
            && Decode(enc.order, r[15..17]) == if noLocalInit then 2 else 0
  {
    var r := MobileUpdate(enc, m, flags, noLocalInit);
    var upToZero := U8(0x20) + U32(enc.order, m.serial) + U16(enc.order, m.body) + U8(0);
    var upToY := upToZero + U16(enc.order, DisplayHue(m)) + U8(flags) + U16(enc.order, m.location.x)
                 + U16(enc.order, m.location.y);
    var reserved := if noLocalInit then U16(enc.order, 2) else Zeros(2);
    assert r == upToY + reserved + U8(m.direction) + U8(m.location.z);
    assert |upToZero| == 8 && |upToY| == 15;
    assert r[7] == upToY[7] == upToZero[7];
    assert r[15..17] == reserved;
    if noLocalInit {
      RoundTrip(enc.order, 2, 2);
      assert Pow256(2) == 0x1_0000;
    } else {
      ZerosEncode(enc.order, 2);
      ZerosDecode(enc.order, 2);
    }
  }

  /** Zero bytes decode to zero in either order. */
  lemma ZerosDecode(order: ByteOrder, n: nat)
    ensures Decode(order, Zeros(n)) == 0
  {
    var zeros := Encode(order, 0, n);
    ZerosEncode(order, n);
    RoundTrip(order, 0, n);
    assert Decode(order, zeros) == 0 % Pow256(n) == 0;
  }

  /** The n-byte encoding of 0 is n zero bytes. */
  lemma {:induction false} ZerosEncode(order: ByteOrder, n: nat)
    ensures Encode(order, 0, n) == Zeros(n)
  {
    LeZeros(n);
    if order == BigEndian {
      ReverseZeros(n);
    }
  }

  lemma {:induction false} LeZeros(n: nat)
    ensures LeBytes(0, n) == Zeros(n)
  {
    if n > 0 {
      LeZeros(n - 1);
      assert Zeros(n) == [0] + Zeros(n - 1);
    }
  }

  lemma {:induction false} ReverseZeros(n: nat)
    ensures Reverse(Zeros(n)) == Zeros(n)
  {
    if n > 0 {
      assert Zeros(n)[1..] == Zeros(n - 1);
      ReverseZeros(n - 1);
      assert Zeros(n - 1) + [0] == Zeros(n);
    }
  }

  // ---------------------------------------------------------------------
  // Status

  /** The server era switches the status packet reads. */
  datatype Era = Era(aos: bool, ml: bool, hs: bool)

  /** What the viewing client supports. */
  datatype Client = Client(extendedStatus: bool, supportsML: bool, stygianAbyss: bool, newMobileIncoming: bool)

  /**
   * The remaining state the extended status packet reads. `armorRating` is
   * the already rounded pre-AOS armor value, `bodyWeight` the server's body
   * weight constant, and `weaponDamage` the (min, max) damage of the
   * wielded weapon, if any.
   */
  datatype StatusFields = StatusFields(
    female: bool,
    str: int, dex: int, intel: int,
    totalGold: int,
    physicalResistance: int, armorRating: int,
    bodyWeight: int, totalWeight: int, maxWeight: int,
    raceId: int,
    statCap: int, followers: int, followersMax: int,
    fireResistance: int, coldResistance: int, poisonResistance: int, energyResistance: int,
    luck: int,
    weaponDamage: Option<(int, int)>,
    tithingPoints: int,
    aosStatus: nat -> int)

  /**
   * The status tier: 0 for anyone but the mobile itself; for itself 6 with
   * High Seas and extended status, else 5 with Mondain's Legacy on both
   * sides, else 4 under AOS, else 3.
   */
  function StatusType(self: bool, era: Era, client: Client): (t: nat)
    ensures t == 0 <==> !self
    ensures t in {0, 3, 4, 5, 6}
  {
    if !self then 0
    else if era.hs && client.extendedStatus then 6
    else if era.ml && client.supportsML then 5
    else if era.aos then 4
    else 3
  }

  /**
   * The fields after the length that every tier carries: serial, name in
   * 30 bytes, hit points, the rename flag and the tier.
   */
  function StatusSummary(enc: Encoders, self: bool, m: Mobile, canBeRenamed: bool, t: nat): (r: seq<byte>)
    ensures |r| == 40
  {
    U32(enc.order, m.serial) + AsciiFixed(m.name, 30)
    + enc.reverseAttribute(m.hits, m.hitsMax, !self) + Flag(canBeRenamed) + U8(t)
  }

  /** The head every tier carries, with the length still unwritten. */
  function StatusHead(enc: Encoders, self: bool, m: Mobile, canBeRenamed: bool, t: nat): (r: seq<byte>)
    ensures |r| == 43 && r[..3] == U8(0x11) + Zeros(2)
  {
    var lead := U8(0x11) + Zeros(2);
    assert (lead + StatusSummary(enc, self, m, canBeRenamed, t))[..3] == lead;
    lead + StatusSummary(enc, self, m, canBeRenamed, t)
  }

  /** The `n` first AOS status values, 16 bits each. */
  function AosValues(enc: Encoders, aosStatus: nat -> int, n: nat): (r: seq<byte>)
    ensures |r| == 2 * n
  {
    if n == 0 then [] else AosValues(enc, aosStatus, n - 1) + U16(enc.order, aosStatus(n - 1))
  }

  /** Value `i` of the AOS status values sits at bytes 2i and 2i + 1. */
  lemma {:induction false} AosValuesAt(enc: Encoders, aosStatus: nat -> int, n: nat, i: nat)
    requires i < n
    ensures AosValues(enc, aosStatus, n)[2 * i..2 * i + 2] == U16(enc.order, aosStatus(i))
  {
    var prior := AosValues(enc, aosStatus, n - 1);
    assert AosValues(enc, aosStatus, n) == prior + U16(enc.order, aosStatus(n - 1));
    if i < n - 1 {
      AosValuesAt(enc, aosStatus, n - 1, i);
      assert (prior + U16(enc.order, aosStatus(n - 1)))[2 * i..2 * i + 2] == prior[2 * i..2 * i + 2];
    }
  }

  /** Tier 3 and up: sex, stats, stamina and mana, gold, armor and weight. */
  function StatusCore(enc: Encoders, era: Era, self: bool, m: Mobile, st: StatusFields): (r: seq<byte>)
    ensures |r| == 23
  {
    Flag(st.female) + U16(enc.order, st.str) + U16(enc.order, st.dex) + U16(enc.order, st.intel)
    + enc.reverseAttribute(m.stam, m.stamMax, !self) + enc.reverseAttribute(m.mana, m.manaMax, !self)
    + U32(enc.order, st.totalGold)
    + U16(enc.order, if era.aos then st.physicalResistance else st.armorRating)
    + U16(enc.order, st.bodyWeight + st.totalWeight)
  }

  /** Tier 5 and up: the weight limit and the race, sent one above its id. */
  function StatusRace(enc: Encoders, st: StatusFields): (r: seq<byte>)
    ensures |r| == 3
  {
    U16(enc.order, st.maxWeight) + U8(st.raceId + 1)
  }

  /** Tier 3 and up: the stat cap and the follower counts. */
  function StatusFollowers(enc: Encoders, st: StatusFields): (r: seq<byte>)
    ensures |r| == 4
  {
    U16(enc.order, st.statCap) + U8(st.followers) + U8(st.followersMax)
  }

  /** Tier 4 and up: the four elemental resistances and luck. */
  function StatusResistances(enc: Encoders, st: StatusFields): (r: seq<byte>)
    ensures |r| == 10
  {
    U16(enc.order, st.fireResistance) + U16(enc.order, st.coldResistance)
    + U16(enc.order, st.poisonResistance) + U16(enc.order, st.energyResistance)
    + U16(enc.order, st.luck)
  }

  /** The weapon's damage range, zero without a weapon. */
  function DamageRange(st: StatusFields): (int, int)
  {
    match st.weaponDamage case Some(d) => d case None => (0, 0)
  }

  /** Tier 3 and up: the damage range and the tithing points. */
  function StatusDamage(enc: Encoders, st: StatusFields): (r: seq<byte>)
    ensures |r| == 8
  {
    U16(enc.order, DamageRange(st).0) + U16(enc.order, DamageRange(st).1) + U32(enc.order, st.tithingPoints)
  }

  /** The blocks the tier gates; nothing for an onlooker. */
  function StatusBody(enc: Encoders, era: Era, self: bool, m: Mobile, st: StatusFields, t: nat): (r: seq<byte>)
    ensures |r| == if t == 0 then 0
                   else 35 + (if t >= 5 then 3 else 0) + (if t >= 4 then 10 else 0) + (if t >= 6 then 30 else 0)
  {
    if t == 0 then []
    else StatusCore(enc, era, self, m, st)
         + (if t >= 5 then StatusRace(enc, st) else [])
         + StatusFollowers(enc, st)
         + (if t >= 4 then StatusResistances(enc, st) else [])
         + StatusDamage(enc, st)
         + (if t >= 6 then AosValues(enc, st.aosStatus, 15) else [])
  }

  /** The unpatched status packet: the head and the blocks its tier gates. */
  function StatusUnpatched(enc: Encoders, era: Era, self: bool, m: Mobile, st: StatusFields,
                           canBeRenamed: bool, t: nat): (r: seq<byte>)
    ensures 43 <= |r| <= 121 && r[..3] == U8(0x11) + Zeros(2)
  {
    var head := StatusHead(enc, self, m, canBeRenamed, t);
    assert (head + StatusBody(enc, era, self, m, st, t))[..3] == head[..3];
    head + StatusBody(enc, era, self, m, st, t)
  }

  /** The 15 AOS status values, one 16-bit value per step. */
  method AosValuesLoop(enc: Encoders, aosStatus: nat -> int) returns (r: seq<byte>)
    ensures r == AosValues(enc, aosStatus, 15)
  {
    r := [];
    for i := 0 to 15
      invariant r == AosValues(enc, aosStatus, i)
    {
      r := r + U16(enc.order, aosStatus(i));
    }
  }

  /** The extended status packet, its length patched in after the last block. */
  function MobileStatusBytes(enc: Encoders, era: Era, client: Client, self: bool, m: Mobile,
                             st: StatusFields, canBeRenamed: bool): (r: seq<byte>)
    ensures var u := StatusUnpatched(enc, era, self, m, st, canBeRenamed, StatusType(self, era, client));
            |r| == |u| && r[..1] == u[..1] && r[3..] == u[3..]
  {
    var t := StatusType(self, era, client);
    var unpatched := StatusUnpatched(enc, era, self, m, st, canBeRenamed, t);
    Network.PatchKeepsEnds(unpatched, |unpatched|, enc.order, 3);
    Network.PatchLength(unpatched, |unpatched|, enc.order)
  }

  /**
   * Builds the expected extended status packet as the test does: the
   * head, the tier-gated blocks, a loop over the 15 AOS values, then the
   * length patch.
   */
  method MobileStatus(enc: Encoders, era: Era, client: Client, self: bool, m: Mobile,
                      st: StatusFields, canBeRenamed: bool) returns (r: seq<byte>)
    ensures r == MobileStatusBytes(enc, era, client, self, m, st, canBeRenamed)
  {
    var t := StatusType(self, era, client);
    var body: seq<byte> := [];
    if t > 0 {
      body := StatusCore(enc, era, self, m, st);
      var race: seq<byte> := [];
      if t >= 5 {
        race := StatusRace(enc, st);
      }
      body := body + race + StatusFollowers(enc, st);
      var resistances: seq<byte> := [];
      if t >= 4 {
        resistances := StatusResistances(enc, st);
      }
      body := body + resistances + StatusDamage(enc, st);
      var aos: seq<byte> := [];
      if t >= 6 {
        aos := AosValuesLoop(enc, st.aosStatus);
      }
      body := body + aos;
    }
    assert body == StatusBody(enc, era, self, m, st, t);
    var data := StatusHead(enc, self, m, canBeRenamed, t) + body;
    r := Network.PatchLength(data, |data|, enc.order);
  }

  /** The extended packet's size for each tier: 43, 78, 88, 91 or 121 bytes. */
  lemma StatusSize(enc: Encoders, era: Era, client: Client, self: bool, m: Mobile,
                   st: StatusFields, canBeRenamed: bool)
    ensures var t := StatusType(self, era, client);
            var n := |MobileStatusBytes(enc, era, client, self, m, st, canBeRenamed)|;
            (t == 0 ==> n == 43) && (t == 3 ==> n == 78) && (t == 4 ==> n == 88)
            && (t == 5 ==> n == 91) && (t == 6 ==> n == 121)
  {
  }

  /** The length field holds the packet's own size. */
  lemma StatusLengthField(enc: Encoders, era: Era, client: Client, self: bool, m: Mobile,
                          st: StatusFields, canBeRenamed: bool)
    ensures var r := MobileStatusBytes(enc, era, client, self, m, st, canBeRenamed);
            Decode(enc.order, r[1..3]) == |r|
  {
    StatusSize(enc, era, client, self, m, st, canBeRenamed);
    var t := StatusType(self, era, client);
    var unpatched := StatusUnpatched(enc, era, self, m, st, canBeRenamed, t);
    Network.PatchedLengthReadsBack(unpatched, enc.order);
  }

  /** Byte 42 carries the tier, and bytes 3 to 37 the serial and the name. */
  lemma StatusTypeByte(enc: Encoders, era: Era, client: Client, self: bool, m: Mobile,
                       st: StatusFields, canBeRenamed: bool)
    ensures var r := MobileStatusBytes(enc, era, client, self, m, st, canBeRenamed);
            r[3..7] == U32(enc.order, m.serial) && r[7..37] == AsciiFixed(m.name, 30)
            && r[42..43] == U8(StatusType(self, era, client))
  {
    var t := StatusType(self, era, client);
    var summary := StatusSummary(enc, self, m, canBeRenamed, t);
    var unpatched := StatusUnpatched(enc, era, self, m, st, canBeRenamed, t);
    Network.PatchLengthParts(unpatched, |unpatched|, enc.order);
    var r := MobileStatusBytes(enc, era, client, self, m, st, canBeRenamed);
    assert r[3..43] == unpatched[3..43] == summary;
    SummaryFields(enc, self, m, canBeRenamed, t);
  }

  lemma SummaryFields(enc: Encoders, self: bool, m: Mobile, canBeRenamed: bool, t: nat)
    ensures var r := StatusSummary(enc, self, m, canBeRenamed, t);
            r[0..4] == U32(enc.order, m.serial) && r[4..34] == AsciiFixed(m.name, 30)
            && r[39..40] == U8(t)
  {
    var id := U32(enc.order, m.serial);
    var name := AsciiFixed(m.name, 30);
    var front := id + name + enc.reverseAttribute(m.hits, m.hitsMax, !self) + Flag(canBeRenamed);
    assert StatusSummary(enc, self, m, canBeRenamed, t) == front + U8(t);
    assert front[..34] == id + name;
  }

  /**
   * The compact status packet: 43 bytes, the name in 30 bytes, the hit
   * points as a reverse attribute pair for an onlooker, the rename flag and
   * a zero type byte.
   */
  function MobileStatusCompact(enc: Encoders, m: Mobile, canBeRenamed: bool): (r: seq<byte>)
    ensures |r| == 43
  {
    U8(0x11) + U16(enc.order, 43) + StatusSummary(enc, false, m, canBeRenamed, 0)
  }

  /** The compact packet is the extended packet as any onlooker sees it. */
  lemma CompactIsOnlookerStatus(enc: Encoders, era: Era, client: Client, m: Mobile,
                                st: StatusFields, canBeRenamed: bool)
    ensures MobileStatusCompact(enc, m, canBeRenamed)
            == MobileStatusBytes(enc, era, client, false, m, st, canBeRenamed)
  {
    var head := StatusHead(enc, false, m, canBeRenamed, 0);
    assert StatusUnpatched(enc, era, false, m, st, canBeRenamed, 0) == head;
    Network.PatchLengthParts(head, 43, enc.order);
    assert head[..1] == U8(0x11) && head[3..] == StatusSummary(enc, false, m, canBeRenamed, 0);
  }

  // ---------------------------------------------------------------------
  // Incoming mobile

  /** The hair layer slot. */
  const HairLayer: LayerId := 0x0B

  /** The facial hair layer slot. */
  const FacialHairLayer: LayerId := 0x10

  /** An item the list may send: not deleted and visible to the beholder. */
  predicate Eligible(item: Item, canSee: Item -> bool)
  {
    !item.deleted && canSee(item)
  }

  /** The layers a list of items occupies. */
  function LayerSet(items: seq<Item>): set<int>
  {
    set item | item in items :: item.layer
  }

  /**
   * The items the incoming packet lists, in order: each eligible item whose
   * layer no earlier listed item took.
   */
  function Selected(items: seq<Item>, canSee: Item -> bool): (r: seq<Item>)
    ensures |r| <= |items|
  {
    if |items| == 0 then []
    else
      var prior := Selected(items[..|items| - 1], canSee);
      var item := items[|items| - 1];
      if Eligible(item, canSee) && item.layer !in LayerSet(prior) then prior + [item] else prior
  }

  /**
   * The 16-bit item id field: the id in 16 bits for the new packet, or in
   * 15 bits with the top bit set for the old one.
   */
  function ItemIdField(newPacket: bool, itemId: int): (r: int)
    ensures 0 <= r < 0x1_0000
    ensures newPacket ==> r == itemId % 0x1_0000
    ensures !newPacket ==> r >= 0x8000 && r - 0x8000 == itemId % 0x8000
  {
    if newPacket then itemId % 0x1_0000 else itemId % 0x8000 + 0x8000
  }

  /**
   * One list entry: serial, id field, layer, then the hue, which the old
   * packet leaves out when it is zero.
   */
  function Entry(enc: Encoders, newPacket: bool, serial: int, itemId: int, layer: LayerId, hue: int): (r: seq<byte>)
    ensures |r| == if newPacket || hue != 0 then 9 else 7
  {
    U32(enc.order, serial) + U16(enc.order, ItemIdField(newPacket, itemId)) + U8(layer)
    + (if newPacket || hue != 0 then U16(enc.order, hue) else [])
  }

  function ItemEntry(enc: Encoders, newPacket: bool, m: Mobile, item: Item): (r: seq<byte>)
    ensures 7 <= |r| <= 9
  {
    Entry(enc, newPacket, item.serial, item.itemId, item.layer, EntryHue(m, item.hue))
  }

  /** The entries of the listed items, in order. */
  function Entries(enc: Encoders, newPacket: bool, m: Mobile, items: seq<Item>): (r: seq<byte>)
    ensures |r| <= 9 * |items|
  {
    if |items| == 0 then []
    else Entries(enc, newPacket, m, items[..|items| - 1]) + ItemEntry(enc, newPacket, m, items[|items| - 1])
  }

  /** A hair entry: present only for a positive id on a layer no item took. */
  function HairEntry(enc: Encoders, newPacket: bool, m: Mobile, taken: set<int>, layer: LayerId,
                     serial: int, itemId: int, hue: int): (r: seq<byte>)
    ensures |r| <= 9
  {
    if itemId > 0 && layer !in taken then Entry(enc, newPacket, serial, itemId, layer, EntryHue(m, hue))
    else []
  }

  /** The fixed fields of the incoming packet, with the length still unwritten. */
  function IncomingHeader(enc: Encoders, m: Mobile, flags: int, notoriety: int): (r: seq<byte>)
    ensures |r| == 19 && r[..1] == U8(0x78)
  {
    U8(0x78) + Zeros(2) + U32(enc.order, m.serial) + U16(enc.order, m.body)
    + U16(enc.order, m.location.x) + U16(enc.order, m.location.y) + U8(m.location.z)
    + U8(m.direction) + U16(enc.order, DisplayHue(m)) + U8(flags) + U8(notoriety)
  }

  /**
   * The incoming mobile packet before the length patch: header, the listed
   * equipment, hair and facial hair (with their synthetic serials), and a
   * zero serial ending the list.
   */
  function IncomingUnpatched(enc: Encoders, m: Mobile, canSee: Item -> bool, flags: int, notoriety: int,
                             newPacket: bool, hairSerial: int, facialHairSerial: int): (r: seq<byte>)
    ensures |r| >= 23
  {
    IncomingHeader(enc, m, flags, notoriety)
    + IncomingList(enc, m, canSee, newPacket, hairSerial, facialHairSerial)
    + Zeros(4)
  }

  /** The list entries: the listed equipment, then hair and facial hair. */
  function IncomingList(enc: Encoders, m: Mobile, canSee: Item -> bool,
                        newPacket: bool, hairSerial: int, facialHairSerial: int): (r: seq<byte>)
    ensures |r| <= 9 * (|m.items| + (if m.hairItemId > 0 then 1 else 0) + (if m.facialHairItemId > 0 then 1 else 0))
  {
    var listed := Selected(m.items, canSee);
    var taken := LayerSet(listed);
    Entries(enc, newPacket, m, listed)
    + HairEntry(enc, newPacket, m, taken, HairLayer, hairSerial, m.hairItemId, m.hairHue)
    + HairEntry(enc, newPacket, m, taken, FacialHairLayer, facialHairSerial, m.facialHairItemId, m.facialHairHue)
  }

  /** The incoming mobile packet, its length patched in. */
  function MobileIncomingBytes(enc: Encoders, m: Mobile, canSee: Item -> bool, flags: int, notoriety: int,
                               newPacket: bool, hairSerial: int, facialHairSerial: int): (r: seq<byte>)
    ensures var u := IncomingUnpatched(enc, m, canSee, flags, notoriety, newPacket, hairSerial, facialHairSerial);
            |r| == |u| && r[..1] == u[..1] && r[3..] == u[3..]
  {
    var unpatched := IncomingUnpatched(enc, m, canSee, flags, notoriety, newPacket, hairSerial, facialHairSerial);
    Network.PatchKeepsEnds(unpatched, |unpatched|, enc.order, 3);
    Network.PatchLength(unpatched, |unpatched|, enc.order)
  }

  /**
   * Builds the expected incoming packet as the test does: the header, the
   * equipment list, then the hair entries checked against the table of
   * taken layers, the terminator and the length patch.
   */
  method MobileIncoming(enc: Encoders, m: Mobile, canSee: Item -> bool, flags: int, notoriety: int,
                        newPacket: bool, hairSerial: int, facialHairSerial: int) returns (r: seq<byte>)
    ensures r == MobileIncomingBytes(enc, m, canSee, flags, notoriety, newPacket, hairSerial, facialHairSerial)
  {
    var entries, layers := ListEquipment(enc, newPacket, m, canSee);
    var data := IncomingHeader(enc, m, flags, notoriety);
    var hair: seq<byte> := [];
    if m.hairItemId > 0 && !layers[HairLayer] {
      hair := Entry(enc, newPacket, hairSerial, m.hairItemId, HairLayer, EntryHue(m, m.hairHue));
    }
    var facialHair: seq<byte> := [];
    if m.facialHairItemId > 0 && !layers[FacialHairLayer] {
      facialHair := Entry(enc, newPacket, facialHairSerial, m.facialHairItemId, FacialHairLayer,
                          EntryHue(m, m.facialHairHue));
    }
    data := data + (entries + hair + facialHair) + Zeros(4);
    r := Network.PatchLength(data, |data|, enc.order);
  }

  /**
   * Walks the equipment in order with a 256-entry table of taken layers,
   * starting all clear: an item is listed when it is not deleted, its layer
   * is not yet taken and the beholder can see it, and listing it takes the
   * layer.
   */
  method ListEquipment(enc: Encoders, newPacket: bool, m: Mobile, canSee: Item -> bool)
    returns (entries: seq<byte>, layers: array<bool>)
    ensures fresh(layers) && layers.Length == 256
    ensures entries == Entries(enc, newPacket, m, Selected(m.items, canSee))
    ensures TableMatches(layers[..], LayerSet(Selected(m.items, canSee)))
  {
    layers := NewLayerTable();
    var items := m.items;
    entries := [];
    for i := 0 to |items|
      invariant layers.Length == 256
      invariant entries == Entries(enc, newPacket, m, Selected(items[..i], canSee))
      invariant TableMatches(layers[..], LayerSet(Selected(items[..i], canSee)))
    {
      var entry := ListItem(enc, newPacket, m, items[i], canSee, layers, items, i);
      entries := entries + entry;
    }
    assert items[..|items|] == items;
  }

  /**
   * The body of the equipment loop for the item at `i`: when it is not
   * deleted, its layer is free and the beholder can see it, its layer is
   * taken and its entry returned; otherwise nothing is written. The ghost
   * parameters place the item in the walk: the table and the entry keep the
   * walk's invariants one item further.
   */
  method ListItem(enc: Encoders, newPacket: bool, m: Mobile, item: Item, canSee: Item -> bool,
                  layers: array<bool>, ghost items: seq<Item>, ghost i: nat) returns (entry: seq<byte>)
    requires i < |items| && item == items[i]
    requires TableMatches(layers[..], LayerSet(Selected(items[..i], canSee)))
    modifies layers
    ensures TableMatches(layers[..], LayerSet(Selected(items[..i + 1], canSee)))
    ensures Entries(enc, newPacket, m, Selected(items[..i + 1], canSee))
            == Entries(enc, newPacket, m, Selected(items[..i], canSee)) + entry
  {
    ghost var listed := Selected(items[..i], canSee);
    ListStep(enc, newPacket, m, items, canSee, i, listed, layers[..]);
    var layer := item.layer;
    if !item.deleted && !layers[layer] && canSee(item) {
      layers[layer] := true;
      var hue := EntryHue(m, item.hue);
      entry := Entry(enc, newPacket, item.serial, item.itemId, layer, hue);
    } else {
      entry := [];
    }
  }

  /**
   * One pass of the equipment loop: an eligible item on a free layer is
   * appended, its entry added and its layer marked; any other item changes
   * nothing.
   */
  lemma ListStep(enc: Encoders, newPacket: bool, m: Mobile, items: seq<Item>, canSee: Item -> bool,
                 i: nat, listed: seq<Item>, table: seq<bool>)
    requires i < |items| && listed == Selected(items[..i], canSee)
    requires TableMatches(table, LayerSet(listed))
    ensures var item := items[i];
            if Eligible(item, canSee) && !table[item.layer] then
              Selected(items[..i + 1], canSee) == listed + [item]
              && Entries(enc, newPacket, m, listed + [item])
                 == Entries(enc, newPacket, m, listed)
                    + Entry(enc, newPacket, item.serial, item.itemId, item.layer, EntryHue(m, item.hue))
              && LayerSet(listed + [item]) == LayerSet(listed) + {item.layer}
              && TableMatches(table[item.layer := true], LayerSet(listed) + {item.layer})
            else Selected(items[..i + 1], canSee) == listed
  {
    var item := items[i];
    SelectedStep(items, canSee, i);
    if Eligible(item, canSee) && !table[item.layer] {
      EntriesSnoc(enc, newPacket, m, listed, item);
      LayerSetSnoc(listed, item);
      TableMark(table, table[item.layer := true], LayerSet(listed), item.layer);
    }
  }

  /** A fresh table of 256 layer flags, none taken. */
  method NewLayerTable() returns (layers: array<bool>)
    ensures fresh(layers) && layers.Length == 256
    ensures TableMatches(layers[..], {})
  {
    layers := new bool[256](_ => false);
  }

  /** A table of 256 flags marking exactly the layers in `taken`. */
  predicate TableMatches(table: seq<bool>, taken: set<int>)
  {
    |table| == 256 && forall l :: 0 <= l < 256 ==> (table[l] <==> l in taken)
  }

  /** Setting one flag marks one more layer. */
  lemma TableMark(before: seq<bool>, after: seq<bool>, taken: set<int>, layer: LayerId)
    requires TableMatches(before, taken) && after == before[layer := true]
    ensures TableMatches(after, taken + {layer})
  {
  }

  /** One more item: it is listed exactly when it is eligible and its layer is free. */
  lemma SelectedStep(items: seq<Item>, canSee: Item -> bool, i: nat)
    requires i < |items|
    ensures var prior := Selected(items[..i], canSee);
            Selected(items[..i + 1], canSee)
            == if Eligible(items[i], canSee) && items[i].layer !in LayerSet(prior) then prior + [items[i]] else prior
  {
    assert items[..i + 1][..i] == items[..i];
  }

  lemma LayerSetSnoc(items: seq<Item>, item: Item)
    ensures LayerSet(items + [item]) == LayerSet(items) + {item.layer}
  {
    assert forall x :: x in items + [item] <==> x in items || x == item;
  }

  lemma EntriesSnoc(enc: Encoders, newPacket: bool, m: Mobile, items: seq<Item>, item: Item)
    ensures Entries(enc, newPacket, m, items + [item])
            == Entries(enc, newPacket, m, items) + ItemEntry(enc, newPacket, m, item)
  {
    assert (items + [item])[..|items|] == items;
  }

  /** The listed items are eligible items of the mobile, in their order. */
  lemma {:induction false} SelectedEligible(items: seq<Item>, canSee: Item -> bool)
    ensures forall x :: x in Selected(items, canSee) ==> x in items && Eligible(x, canSee)
  {
    if |items| > 0 {
      var init := items[..|items| - 1];
      SelectedEligible(init, canSee);
      assert forall x :: x in init ==> x in items;
    }
  }

  /** No two listed items share a layer. */
  lemma {:induction false} SelectedDistinctLayers(items: seq<Item>, canSee: Item -> bool)
    ensures var r := Selected(items, canSee);
            forall i, j :: 0 <= i < j < |r| ==> r[i].layer != r[j].layer
  {
    if |items| > 0 {
      var n := |items| - 1;
      var init := items[..n];
      SelectedDistinctLayers(init, canSee);
      SelectedStep(items, canSee, n);
      assert items[..n + 1] == items;
      var prior := Selected(init, canSee);
      forall i | 0 <= i < |prior| ensures prior[i].layer in LayerSet(prior) {
        assert prior[i] in prior;
      }
    }
  }

  /** A layer is taken exactly when some eligible item sits on it. */
  lemma {:induction false} SelectedLayers(items: seq<Item>, canSee: Item -> bool, l: int)
    ensures l in LayerSet(Selected(items, canSee))
            <==> exists j :: 0 <= j < |items| && Eligible(items[j], canSee) && items[j].layer == l
  {
    if |items| > 0 {
      SelectedLayers(items[..|items| - 1], canSee, l);
      LayersStep(items, canSee, l);
      EligibleOnStep(items, canSee, l);
    }
  }

  /** The last item adds its layer exactly when it is eligible. */
  lemma LayersStep(items: seq<Item>, canSee: Item -> bool, l: int)
    requires |items| > 0
    ensures var last := items[|items| - 1];
            l in LayerSet(Selected(items, canSee))
            <==> l in LayerSet(Selected(items[..|items| - 1], canSee)) || (Eligible(last, canSee) && last.layer == l)
  {
    LayerSetSnoc(Selected(items[..|items| - 1], canSee), items[|items| - 1]);
  }

  /** Some item is eligible on `l` exactly when one before the last is, or the last is. */
  lemma EligibleOnStep(items: seq<Item>, canSee: Item -> bool, l: int)
    requires |items| > 0
    ensures var n := |items| - 1;
            var init := items[..n];
            (exists j :: 0 <= j < |items| && Eligible(items[j], canSee) && items[j].layer == l)
            <==> (exists j :: 0 <= j < n && Eligible(init[j], canSee) && init[j].layer == l)
                 || (Eligible(items[n], canSee) && items[n].layer == l)
  {
    var n := |items| - 1;
    var init := items[..n];
    if exists j :: 0 <= j < n && Eligible(init[j], canSee) && init[j].layer == l {
      var j :| 0 <= j < n && Eligible(init[j], canSee) && init[j].layer == l;
      assert items[j] == init[j];
    }
    if exists j :: 0 <= j < |items| && Eligible(items[j], canSee) && items[j].layer == l {
      var j :| 0 <= j < |items| && Eligible(items[j], canSee) && items[j].layer == l;
      if j < n {
        assert init[j] == items[j];
      }
    }
  }

  /**
   * First seen wins: item `k` is listed exactly when it is eligible and no
   * earlier eligible item sits on its layer.
   */
  lemma FirstOnLayerListed(items: seq<Item>, canSee: Item -> bool, k: nat)
    requires k < |items|
    ensures Selected(items[..k + 1], canSee) == Selected(items[..k], canSee) + [items[k]]
            <==> Eligible(items[k], canSee)
                 && forall j :: 0 <= j < k ==> !(Eligible(items[j], canSee) && items[j].layer == items[k].layer)
  {
    SelectedStep(items, canSee, k);
    SelectedLayers(items[..k], canSee, items[k].layer);
    var prefix := items[..k];
    assert forall j :: 0 <= j < k ==> prefix[j] == items[j];
  }

  /**
   * The incoming packet holds the 19-byte header and the 4-byte terminator
   * and at most 9 bytes per item, hair and facial hair: it fits the buffer
   * the test sizes for it.
   */
  lemma IncomingSize(enc: Encoders, m: Mobile, canSee: Item -> bool, flags: int, notoriety: int,
                     newPacket: bool, hairSerial: int, facialHairSerial: int)
    ensures var n := |MobileIncomingBytes(enc, m, canSee, flags, notoriety, newPacket, hairSerial, facialHairSerial)|;
            23 <= n <= 23 + 9 * (|m.items| + (if m.hairItemId > 0 then 1 else 0)
                                 + (if m.facialHairItemId > 0 then 1 else 0))
  {
  }

  /**
   * The hair entry is sent exactly when the mobile has hair and no
   * eligible item sits on the hair layer; likewise for facial hair.
   */
  lemma HairListed(enc: Encoders, newPacket: bool, m: Mobile, canSee: Item -> bool, layer: LayerId,
                   serial: int, itemId: int, hue: int)
    ensures var taken := LayerSet(Selected(m.items, canSee));
            HairEntry(enc, newPacket, m, taken, layer, serial, itemId, hue) != []
            <==> itemId > 0
                 && forall j :: 0 <= j < |m.items| ==> !(Eligible(m.items[j], canSee) && m.items[j].layer == layer)
  {
    SelectedLayers(m.items, canSee, layer);
  }

  /** The packet starts with its id and ends with a zero serial closing the list. */
  lemma IncomingFraming(enc: Encoders, m: Mobile, canSee: Item -> bool, flags: int, notoriety: int,
                        newPacket: bool, hairSerial: int, facialHairSerial: int)
    ensures var r := MobileIncomingBytes(enc, m, canSee, flags, notoriety, newPacket, hairSerial, facialHairSerial);
            r[..1] == U8(0x78) && r[|r| - 4..] == Zeros(4)
  {
    var unpatched := IncomingUnpatched(enc, m, canSee, flags, notoriety, newPacket, hairSerial, facialHairSerial);
    UnpatchedFraming(enc, m, canSee, flags, notoriety, newPacket, hairSerial, facialHairSerial);
    Network.PatchKeepsEnds(unpatched, |unpatched|, enc.order, |unpatched| - 4);
  }

  lemma UnpatchedFraming(enc: Encoders, m: Mobile, canSee: Item -> bool, flags: int, notoriety: int,
                         newPacket: bool, hairSerial: int, facialHairSerial: int)
    ensures var u := IncomingUnpatched(enc, m, canSee, flags, notoriety, newPacket, hairSerial, facialHairSerial);
            u[..1] == U8(0x78) && u[|u| - 4..] == Zeros(4)
  {
    var header := IncomingHeader(enc, m, flags, notoriety);
    var list := IncomingList(enc, m, canSee, newPacket, hairSerial, facialHairSerial);
    PrefixOfAppend(header + list, Zeros(4), 1);
    PrefixOfAppend(header, list, 1);
  }

  lemma PrefixOfAppend<T>(a: seq<T>, b: seq<T>, k: nat)
    requires k <= |a|
    ensures (a + b)[..k] == a[..k] && (a + b)[|a|..] == b
  {
  }

  /** The length field holds the packet's size in 16 bits. */
  lemma IncomingLengthField(enc: Encoders, m: Mobile, canSee: Item -> bool, flags: int, notoriety: int,
                            newPacket: bool, hairSerial: int, facialHairSerial: int)
    ensures var r := MobileIncomingBytes(enc, m, canSee, flags, notoriety, newPacket, hairSerial, facialHairSerial);
            Decode(enc.order, r[1..3]) == |r| % 0x1_0000
  {
  }
}
