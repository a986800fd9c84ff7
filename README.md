# ModernUO wire core in Dafny

This project models four parts of the ModernUO game server:

- **The persisted-state reader `BufferReader`.** It is a cursor over a byte array. It reads:
  - little-endian integers of 1, 2, 4 and 8 bytes;
  - the 7-bit-group "encoded int";
  - length-prefixed strings;
  - points and rectangles;
  - entity references, their lists and their sets.

  Entity references are resolved through a registry lookup that the model takes as a parameter.
- **The packet utilities.** One patches a packet's 16-bit length field at offset 1 after the body is written. The others mark the id byte of packet slots as unset, in a build without local zero initialisation.
- **The outgoing mobile packets.** They are modelled as the exact byte layouts the packet tests build and expect:
  - movement, name and animation;
  - compact and extended status;
  - poison and yellow health bars;
  - the update packet;
  - the incoming-mobile packet with its equipment list;
  - the hits, mana and stamina bars and the attributes packet.
- **The shrink table.** It maps a creature body id to the item id of its figurine. It is loaded line by line from a tab-separated configuration file, and looked up with a default.

Modules:

- `Wire`: bytes, byte order, fixed-width encodings and their round trips;
- `Geometry`: points and rectangles;
- `Serialization`: the reader class and the functions that specify it;
- `Network`: the writer's length patch and slot initialisation;
- `MobilePackets`: the packet layouts and their lemmas;
- `Shrink`: the table, its loader and its lookup;
- `Wrappers`: `Option` and `Result`.

Each operation is proved against a specification in one of three ways:

- an imperative method (the reader, the loaders, the equipment walk) is proved against a function of its inputs and old state;
- a packet function gets a lemma about its field layout;
- a lookup gets lemmas relating it to what was loaded.

Three behaviours of the code are easy to miss:

- **Status tiers insert fields.** The extended status packet's tiers place their blocks in the middle of the layout, not only at its end. The race block of tier 5 sits before the stat cap. The resistances of tier 4 sit before the damage range.
- **The encoded-int decoder has no bound on groups.** It reads groups until it finds a byte below 0x80. The shift of each group wraps modulo 32, as a C# `int` shift does. It never fails on a long encoding.
- **Seek does not enforce its bounds.** Its range checks are debug assertions only. The offset is a C# `int`. The sum of the origin and the offset is taken as a C# `int` too, so it wraps modulo 2^32. The new position is that wrapped sum, clamped below at 0. `SeekIntendedInBounds` shows that within the asserted bounds neither the wrap nor the clamp happens. `SeekOverflowRewinds` shows that a sum just past `int.MaxValue` wraps negative and rewinds the reader to 0.

## Model

| member | source | states |
|---|---|---|
| `Serialization.BufferReader.constructor` | Projects/Server/Serialization/BufferReader.cs:37-41 | the reader starts over the given buffer at position 0 |
| `Serialization.BufferReader.SwapBuffers` | Projects/Server/Serialization/BufferReader.cs:43-48 | the old buffer is handed back, the new one installed and the position reset to 0 |
| `Serialization.BufferReader.ReadByte` | Projects/Server/Serialization/BufferReader.cs:132 | the byte at the cursor is returned and the cursor moves by one |
| `Serialization.BufferReader.ReadSByte` | Projects/Server/Serialization/BufferReader.cs:134 | the result lies in [-128, 128) and is congruent to the byte at the cursor modulo 256 |
| `Serialization.BufferReader.ReadBool` | Projects/Server/Serialization/BufferReader.cs:136 | true exactly when the byte at the cursor is nonzero |
| `Serialization.BufferReader.ReadUShort` | Projects/Server/Serialization/BufferReader.cs:111-116 | the value is the low byte plus 256 times the high byte, little-endian; the cursor moves by 2 |
| `Serialization.BufferReader.ReadShort` | Projects/Server/Serialization/BufferReader.cs:104-109 | the two's-complement value of the two bytes, within the 16-bit signed range |
| `Serialization.BufferReader.ReadUInt` | Projects/Server/Serialization/BufferReader.cs:97-102 | the little-endian value of four bytes, below 2^32 |
| `Serialization.BufferReader.ReadInt` | Projects/Server/Serialization/BufferReader.cs:90-95 | the two's-complement value of four bytes, within the 32-bit signed range |
| `Serialization.BufferReader.ReadULong` | Projects/Server/Serialization/BufferReader.cs:83-88 | the little-endian value of eight bytes, below 2^64 |
| `Serialization.BufferReader.ReadLong` | Projects/Server/Serialization/BufferReader.cs:76-81 | the two's-complement value of eight bytes, within the 64-bit signed range |
| `Serialization.BufferReader.ReadEncodedInt` | Projects/Server/Serialization/BufferReader.cs:138-151 | the 32 accumulated bits as a C# int; the cursor moves past every byte up to and including the first one below 0x80 |
| `Serialization.BufferReader.ReadEncodedBits` | Projects/Server/Serialization/BufferReader.cs:140-148 | the do-while loop ORs each byte's low seven bits, shifted by 7 more each time, until a byte below 0x80 |
| `Serialization.EncodedLengthBounds` | Projects/Server/Serialization/BufferReader.cs:143-148 | the consumed bytes lie in the buffer; all but the last have the continuation bit set and the last has it clear |
| `Serialization.EncodedLengthFirst` | Projects/Server/Serialization/BufferReader.cs:148 | decoding stops at the first byte below 0x80; a later terminator never counts |
| `Serialization.SingleByteEncodedInt` | Projects/Server/Serialization/BufferReader.cs:143-150 | a byte below 0x80 is a whole encoded int, one byte long, and decodes to itself |
| `Serialization.TwoByteEncodedInt` | Projects/Server/Serialization/BufferReader.cs:143-150 | two bytes decode to the first's low seven bits OR the second shifted left by 7 |
| `Serialization.BufferReader.ReadString` | Projects/Server/Serialization/BufferReader.cs:50-66 | a zero presence byte gives null; a length of at most zero gives the empty string; otherwise that many payload bytes are returned and skipped |
| `Serialization.BufferReader.Read` | Projects/Server/Serialization/BufferReader.cs:223-234 | when the destination is longer than what is left: the out-of-memory error, with the cursor and the destination unchanged; otherwise the next bytes are copied, the count returned and the cursor advanced |
| `Serialization.BufferReader.ReadPoint2D` | Projects/Server/Serialization/BufferReader.cs:164 | x then y, each a 32-bit signed int |
| `Serialization.BufferReader.ReadPoint3D` | Projects/Server/Serialization/BufferReader.cs:162 | x, y then z, each a 32-bit signed int |
| `Serialization.BufferReader.ReadRect2D` | Projects/Server/Serialization/BufferReader.cs:166 | the start point, then the end point, 16 bytes |
| `Serialization.BufferReader.ReadRect3D` | Projects/Server/Serialization/BufferReader.cs:168 | the start point, then the end point, 24 bytes |
| `Serialization.BufferReader.ReadEntity` | Projects/Server/Serialization/BufferReader.cs:172-183 | the lookup of the unsigned serial at the cursor |
| `Serialization.BufferReader.ReadEntityList` | Projects/Server/Serialization/BufferReader.cs:185-201 | a negative count is an error; otherwise the list is the resolved serials in read order, dropping the ones not found |
| `Serialization.BufferReader.ReadResolvedList` | Projects/Server/Serialization/BufferReader.cs:191-198 | the loop appends each found entity in order: it builds the resolved list of the `count` serials |
| `Serialization.BufferReader.ReadEntitySet` | Projects/Server/Serialization/BufferReader.cs:203-219 | a negative count is an error; otherwise the set holds exactly the entities the serials resolve to |
| `Serialization.BufferReader.ReadResolvedSet` | Projects/Server/Serialization/BufferReader.cs:209-216 | the loop's set is the set of the resolved list |
| `Serialization.ResolvedAppend` | Projects/Server/Serialization/BufferReader.cs:191-198 | resolution keeps read order: it distributes over concatenation of the serials |
| `Serialization.ResolvedMembers` | Projects/Server/Serialization/BufferReader.cs:193-197 | an entity is in the list exactly when the lookup of some serial found it |
| `Serialization.Wrap32` | Projects/Server/Serialization/BufferReader.cs:253-254 | the C# `int` an addition yields: congruent to the sum modulo 2^32, and the sum itself when that is in range |
| `Serialization.SeekTarget` | Projects/Server/Serialization/BufferReader.cs:251-256 | the new position is below 2^31; it is the origin-relative target wrapped to a C# `int`, or 0 when that wrapped value is negative |
| `Serialization.SeekOverflowRewinds` | Projects/Server/Serialization/BufferReader.cs:251-256 | an origin plus offset between 2^31 and 2^32 wraps negative, so the position becomes 0 |
| `Serialization.SeekIntendedInBounds` | Projects/Server/Serialization/BufferReader.cs:238-256 | within the bounds the debug assertions state, a seek is not clamped and stays inside the buffer |
| `Serialization.BufferReader.Seek` | Projects/Server/Serialization/BufferReader.cs:236-257 | the position becomes the wrapped and clamped target and is returned |
| `Wire.RoundTrip` | Projects/Server/Network/PacketUtilities.cs:30 | decoding an n-byte encoding in the same byte order gives the value modulo 256^n: the 16-bit cast the length write performs |
| `Wire.SignedRange` | Projects/Server/Serialization/BufferReader.cs:104-109 | a two's-complement reinterpretation lies in the signed range of its width |
| `Network.PatchLength` | Projects/Server/Network/PacketUtilities.cs:26-41 | bytes 1 and 2 decode to the length modulo 2^16; every other byte is unchanged |
| `Network.PatchLengthIdempotent` | Projects/Server/Network/PacketUtilities.cs:26-41 | patching twice with the same length is patching once |
| `Network.PatchKeepsEnds` | Projects/Server/Network/PacketUtilities.cs:28-31 | the id byte and every byte from offset 3 on survive the patch |
| `Network.PatchedLengthReadsBack` | Projects/Server/Network/PacketUtilities.cs:28-30 | a packet shorter than 64 KiB reads its own size back from its length field |
| `Network.PacketWriter.constructor` | Projects/Server/Network/PacketUtilities.cs:26-27 | the writer the patch is handed starts over its buffer at position 0 |
| `Network.PacketWriter.Seek` | Projects/Server/Network/PacketUtilities.cs:29-31 | the cursor moves to the given absolute position |
| `Network.PacketWriter.WritePacketLength` | Projects/Server/Network/PacketUtilities.cs:35-41 | the buffer becomes the length patch of the old buffer at the current position, and the position is restored |
| `Network.PacketWriter.WriteUShort` | Projects/Server/Network/PacketUtilities.cs:30 | two bytes at the cursor take the encoding; nothing else changes and the cursor moves by 2 |
| `Network.InitializePacket` | Projects/Server/Network/PacketUtilities.cs:46-51 | without local initialisation the id byte becomes 0 and the rest stays, and an empty span gives the out-of-range error with nothing written; otherwise nothing changes |
| `Network.InitializePackets` | Projects/Server/Network/PacketUtilities.cs:54-65 | without local initialisation the first byte of every slot is zeroed and every other byte kept; otherwise nothing changes |
| `Network.ZeroedSlots` | Projects/Server/Network/PacketUtilities.cs:57-63 | zeroing every slot start keeps the length of the buffer |
| `Network.SlotStartsZeroed` | Projects/Server/Network/PacketUtilities.cs:57-63 | every slot start below the length is zero afterwards |
| `Network.InsideSlotUnchanged` | Projects/Server/Network/PacketUtilities.cs:57-63 | a byte past the first of its slot is left alone |
| `Network.SingleSlot` | Projects/Server/Network/PacketUtilities.cs:54-65 | with one slot covering the buffer, only byte 0 is zeroed |
| `MobilePackets.AsciiFixed` | Projects/Server.Tests/Tests/Network/Packets/Outgoing/MobilePacketTests.cs:101 | a fixed text field: the first `size` bytes of the text, zero-padded |
| `MobilePackets.MobileMovingOld` | Projects/Server.Tests/Tests/Network/Packets/Outgoing/MobilePacketTests.cs:70-82 | the old movement packet is 17 bytes |
| `MobilePackets.MobileMovingOldFields` | Projects/Server.Tests/Tests/Network/Packets/Outgoing/MobilePacketTests.cs:73-80 | its fields in order at their offsets: id 0x77, serial, body, location, direction, hue, flags, notoriety |
| `MobilePackets.MobileName` | Projects/Server.Tests/Tests/Network/Packets/Outgoing/MobilePacketTests.cs:96-104 | the name packet is 37 bytes |
| `MobilePackets.MobileNameLength` | Projects/Server.Tests/Tests/Network/Packets/Outgoing/MobilePacketTests.cs:99-104 | the length field is the packet's own size, and the last byte is zero |
| `MobilePackets.MobileNameText` | Projects/Server.Tests/Tests/Network/Packets/Outgoing/MobilePacketTests.cs:101 | bytes 7 to 35 hold the first 29 name bytes, zero-padded |
| `MobilePackets.MobileAnimation` | Projects/Server.Tests/Tests/Network/Packets/Outgoing/MobilePacketTests.cs:130-140 | the animation packet is 14 bytes |
| `MobilePackets.AnimationFields` | Projects/Server.Tests/Tests/Network/Packets/Outgoing/MobilePacketTests.cs:134-136 | serial, action and frame count at offsets 0, 4 and 6 |
| `MobilePackets.NewMobileAnimation` | Projects/Server.Tests/Tests/Network/Packets/Outgoing/MobilePacketTests.cs:160-167 | the new animation packet is 10 bytes |
| `MobilePackets.AnimationSerial` | Projects/Server.Tests/Tests/Network/Packets/Outgoing/MobilePacketTests.cs:133-167 | both animation packets carry serial, action and frame count at bytes 1 to 8, and the delay last |
| `MobilePackets.HealthbarPoison` | Projects/Server.Tests/Tests/Network/Packets/Outgoing/MobilePacketTests.cs:328-335 | the poison bar packet is 12 bytes |
| `MobilePackets.HealthbarYellow` | Projects/Server.Tests/Tests/Network/Packets/Outgoing/MobilePacketTests.cs:351-358 | the yellow bar packet is 12 bytes |
| `MobilePackets.HealthbarHeader` | Projects/Server.Tests/Tests/Network/Packets/Outgoing/MobilePacketTests.cs:331-357 | both bars share the first 7 bytes, the length field is the size, and the kind is 0x10001 for poison and 0x10002 for yellow |
| `MobilePackets.HealthbarPoisonLevel` | Projects/Server.Tests/Tests/Network/Packets/Outgoing/MobilePacketTests.cs:335 | the last byte is the poison level plus one, or 0 without poison |
| `MobilePackets.HealthbarYellowFlag` | Projects/Server.Tests/Tests/Network/Packets/Outgoing/MobilePacketTests.cs:358 | the last byte is 1 exactly when blessed or yellow, and 0 exactly when neither |
| `MobilePackets.MobileBar` | Projects/Server.Tests/Tests/Network/Packets/Outgoing/MobilePacketTests.cs:631-636 | a bar packet is 9 bytes |
| `MobilePackets.MobileBarFields` | Projects/Server.Tests/Tests/Network/Packets/Outgoing/MobilePacketTests.cs:634-636 | the id 0xA1, 0xA2 or 0xA3, the serial, then the attribute pair of that bar |
| `MobilePackets.MobileAttributes` | Projects/Server.Tests/Tests/Network/Packets/Outgoing/MobilePacketTests.cs:739-746 | the attributes packet is 17 bytes |
| `MobilePackets.AttributesAreBars` | Projects/Server.Tests/Tests/Network/Packets/Outgoing/MobilePacketTests.cs:742-766 | after its header it carries the serial and the hits, mana and stamina pairs exactly as the three bar packets do |
| `MobilePackets.MobileUpdate` | Projects/Server.Tests/Tests/Network/Packets/Outgoing/MobilePacketTests.cs:371-394 | the update packet is 19 bytes |
| `MobilePackets.EntryHue` | Projects/Server.Tests/Tests/Network/Packets/Outgoing/MobilePacketTests.cs:517-543 | the hue drawn: the mobile's solid hue override when that is non-negative, else the hue given |
| `MobilePackets.DisplayHue` | Projects/Server.Tests/Tests/Network/Packets/Outgoing/MobilePacketTests.cs:374 | the mobile's own hue under the same override rule |
| `MobilePackets.MobileUpdateHue` | Projects/Server.Tests/Tests/Network/Packets/Outgoing/MobilePacketTests.cs:374-384 | bytes 8 and 9 hold the solid hue override when non-negative, else the hue |
| `MobilePackets.MobileUpdateReserved` | Projects/Server.Tests/Tests/Network/Packets/Outgoing/MobilePacketTests.cs:379-392 | byte 7 is zero; bytes 15 and 16 hold the encoding of 2 without local initialisation and of 0 otherwise, and decode back to that value |
| `MobilePackets.ZerosDecode` | Projects/Server.Tests/Tests/Network/Packets/Outgoing/MobilePacketTests.cs:388-392 | the reserved bytes skipped with local initialisation decode to 0 in either byte order |
| `MobilePackets.StatusType` | Projects/Server.Tests/Tests/Network/Packets/Outgoing/MobilePacketTests.cs:230-248 | the tier is 0 exactly for an onlooker, and is one of 0, 3, 4, 5, 6 |
| `MobilePackets.StatusSummary` | Projects/Server.Tests/Tests/Network/Packets/Outgoing/MobilePacketTests.cs:250-256 | the fields every tier carries after the length take 40 bytes |
| `MobilePackets.SummaryFields` | Projects/Server.Tests/Tests/Network/Packets/Outgoing/MobilePacketTests.cs:250-256 | serial at 0, the 30-byte name at 4, the tier at 39 |
| `MobilePackets.StatusHead` | Projects/Server.Tests/Tests/Network/Packets/Outgoing/MobilePacketTests.cs:227-256 | the head is 43 bytes |
| `MobilePackets.StatusCore` | Projects/Server.Tests/Tests/Network/Packets/Outgoing/MobilePacketTests.cs:260-273 | the first tier block is 23 bytes |
| `MobilePackets.StatusRace` | Projects/Server.Tests/Tests/Network/Packets/Outgoing/MobilePacketTests.cs:275-279 | the tier-5 block is 3 bytes |
| `MobilePackets.StatusFollowers` | Projects/Server.Tests/Tests/Network/Packets/Outgoing/MobilePacketTests.cs:281-283 | the stat cap and follower block is 4 bytes |
| `MobilePackets.StatusResistances` | Projects/Server.Tests/Tests/Network/Packets/Outgoing/MobilePacketTests.cs:285-292 | the tier-4 block is 10 bytes |
| `MobilePackets.StatusDamage` | Projects/Server.Tests/Tests/Network/Packets/Outgoing/MobilePacketTests.cs:294-301 | the damage and tithing block is 8 bytes |
| `MobilePackets.AosValues` | Projects/Server.Tests/Tests/Network/Packets/Outgoing/MobilePacketTests.cs:305-308 | n status values take 2n bytes |
| `MobilePackets.AosValuesAt` | Projects/Server.Tests/Tests/Network/Packets/Outgoing/MobilePacketTests.cs:305-308 | status value i sits at bytes 2i and 2i + 1, in the writer's byte order |
| `MobilePackets.AosValuesLoop` | Projects/Server.Tests/Tests/Network/Packets/Outgoing/MobilePacketTests.cs:305-308 | the 15-step loop writes the 15 AOS status values in order |
| `MobilePackets.StatusBody` | Projects/Server.Tests/Tests/Network/Packets/Outgoing/MobilePacketTests.cs:258-310 | the gated blocks are empty for tier 0, and otherwise 35 bytes plus 3 from tier 5, 10 from tier 4 and 30 from tier 6 |
| `MobilePackets.StatusUnpatched` | Projects/Server.Tests/Tests/Network/Packets/Outgoing/MobilePacketTests.cs:224-310 | the unpatched packet is 43 to 121 bytes and opens with the id 0x11 and two zero length bytes |
| `MobilePackets.MobileStatusBytes` | Projects/Server.Tests/Tests/Network/Packets/Outgoing/MobilePacketTests.cs:224-312 | the final packet is the unpatched one of its tier with only the length bytes 1 and 2 rewritten |
| `MobilePackets.MobileStatus` | Projects/Server.Tests/Tests/Network/Packets/Outgoing/MobilePacketTests.cs:224-315 | the test's step-by-step construction equals the specified extended status packet |
| `MobilePackets.StatusSize` | Projects/Server.Tests/Tests/Network/Packets/Outgoing/MobilePacketTests.cs:224-314 | the packet is 43, 78, 88, 91 or 121 bytes for tiers 0, 3, 4, 5 and 6 |
| `MobilePackets.StatusLengthField` | Projects/Server.Tests/Tests/Network/Packets/Outgoing/MobilePacketTests.cs:312 | the length field decodes to the packet's own size |
| `MobilePackets.StatusTypeByte` | Projects/Server.Tests/Tests/Network/Packets/Outgoing/MobilePacketTests.cs:250-256 | in the final packet: serial at 3, name at 7, and the tier at byte 42 |
| `MobilePackets.MobileStatusCompact` | Projects/Server.Tests/Tests/Network/Packets/Outgoing/MobilePacketTests.cs:182-196 | the compact status packet is 43 bytes |
| `MobilePackets.CompactIsOnlookerStatus` | Projects/Server.Tests/Tests/Network/Packets/Outgoing/MobilePacketTests.cs:172-316 | the compact packet is exactly the extended packet an onlooker (tier 0) receives |
| `MobilePackets.Selected` | Projects/Server.Tests/Tests/Network/Packets/Outgoing/MobilePacketTests.cs:531-559 | the listed items are no more than the mobile's items |
| `MobilePackets.ItemIdField` | Projects/Server.Tests/Tests/Network/Packets/Outgoing/MobilePacketTests.cs:544-552 | the new packet sends the id in 16 bits; the old one sends 15 bits with the top bit set |
| `MobilePackets.Entry` | Projects/Server.Tests/Tests/Network/Packets/Outgoing/MobilePacketTests.cs:541-557 | an entry is 9 bytes, or 7 when the old packet leaves a zero hue out |
| `MobilePackets.ItemEntry` | Projects/Server.Tests/Tests/Network/Packets/Outgoing/MobilePacketTests.cs:541-557 | an equipment entry is 7 to 9 bytes |
| `MobilePackets.Entries` | Projects/Server.Tests/Tests/Network/Packets/Outgoing/MobilePacketTests.cs:531-559 | the entries take at most 9 bytes per listed item |
| `MobilePackets.HairEntry` | Projects/Server.Tests/Tests/Network/Packets/Outgoing/MobilePacketTests.cs:561-582 | a hair entry takes at most 9 bytes |
| `MobilePackets.IncomingHeader` | Projects/Server.Tests/Tests/Network/Packets/Outgoing/MobilePacketTests.cs:514-527 | the fixed fields are 19 bytes, starting with id 0x78 |
| `MobilePackets.IncomingList` | Projects/Server.Tests/Tests/Network/Packets/Outgoing/MobilePacketTests.cs:531-605 | the list takes at most 9 bytes per item, hair and facial hair |
| `MobilePackets.IncomingUnpatched` | Projects/Server.Tests/Tests/Network/Packets/Outgoing/MobilePacketTests.cs:514-611 | the unpatched packet is at least 23 bytes |
| `MobilePackets.MobileIncomingBytes` | Projects/Server.Tests/Tests/Network/Packets/Outgoing/MobilePacketTests.cs:514-613 | the final packet is the unpatched one with only the length bytes 1 and 2 rewritten |
| `MobilePackets.MobileIncoming` | Projects/Server.Tests/Tests/Network/Packets/Outgoing/MobilePacketTests.cs:491-614 | the test's construction equals the specified incoming packet |
| `MobilePackets.ListEquipment` | Projects/Server.Tests/Tests/Network/Packets/Outgoing/MobilePacketTests.cs:491-559 | the walk with a fresh 256-flag table writes the entries of the selected items, and the table ends marking exactly their layers |
| `MobilePackets.ListItem` | Projects/Server.Tests/Tests/Network/Packets/Outgoing/MobilePacketTests.cs:533-558 | one pass keeps the table and the entries in step with the selection one item further |
| `MobilePackets.ListStep` | Projects/Server.Tests/Tests/Network/Packets/Outgoing/MobilePacketTests.cs:537-558 | an eligible item on a free layer is appended, its entry added and its layer marked; any other item changes nothing |
| `MobilePackets.NewLayerTable` | Projects/Server.Tests/Tests/Network/Packets/Outgoing/MobilePacketTests.cs:491-494 | the fresh table has 256 flags and marks no layer |
| `MobilePackets.Eligible` | Projects/Server.Tests/Tests/Network/Packets/Outgoing/MobilePacketTests.cs:537 | an item may be listed when it is not deleted and the beholder can see it |
| `MobilePackets.SelectedStep` | Projects/Server.Tests/Tests/Network/Packets/Outgoing/MobilePacketTests.cs:537 | an item is listed exactly when it is eligible and its layer is not yet taken |
| `MobilePackets.SelectedEligible` | Projects/Server.Tests/Tests/Network/Packets/Outgoing/MobilePacketTests.cs:537 | every listed item is one of the mobile's items, not deleted and visible |
| `MobilePackets.SelectedDistinctLayers` | Projects/Server.Tests/Tests/Network/Packets/Outgoing/MobilePacketTests.cs:537-539 | no two listed items share a layer |
| `MobilePackets.SelectedLayers` | Projects/Server.Tests/Tests/Network/Packets/Outgoing/MobilePacketTests.cs:531-559 | a layer is taken exactly when some eligible item sits on it |
| `MobilePackets.FirstOnLayerListed` | Projects/Server.Tests/Tests/Network/Packets/Outgoing/MobilePacketTests.cs:537-539 | first seen wins: an item is listed exactly when it is eligible and no earlier eligible item shares its layer |
| `MobilePackets.IncomingSize` | Projects/Server.Tests/Tests/Network/Packets/Outgoing/MobilePacketTests.cs:497-511 | the packet fits the test's maximum size: between 23 and 23 plus 9 per item, hair and facial hair |
| `MobilePackets.HairListed` | Projects/Server.Tests/Tests/Network/Packets/Outgoing/MobilePacketTests.cs:561-605 | a hair entry is sent exactly when its id is positive and no eligible item sits on its layer |
| `MobilePackets.IncomingFraming` | Projects/Server.Tests/Tests/Network/Packets/Outgoing/MobilePacketTests.cs:514-611 | the packet begins with 0x78 and ends with the 4-byte zero serial that closes the list |
| `MobilePackets.IncomingLengthField` | Projects/Server.Tests/Tests/Network/Packets/Outgoing/MobilePacketTests.cs:613 | the length field holds the packet's size modulo 2^16 |
| `Shrink.Lookup` | Projects/UOContent/Misc/ShrinkTable.cs:18-38 | an in-range nonzero entry is returned; an out-of-range body or a zero entry gives the default |
| `Shrink.LookupOrStone` | Projects/UOContent/Misc/ShrinkTable.cs:12-14 | the one-argument lookup is never zero: an entry, or the virtue stone 0x1870 |
| `Shrink.TrimStart` | Projects/UOContent/Misc/ShrinkTable.cs:57 | a suffix of the line whose dropped characters are all white space and whose first is not |
| `Shrink.TrimEnd` | Projects/UOContent/Misc/ShrinkTable.cs:57 | a prefix of the line whose dropped characters are all white space and whose last is not |
| `Shrink.Trim` | Projects/UOContent/Misc/ShrinkTable.cs:57 | the trimmed line neither begins nor ends with white space |
| `Shrink.TrimIdempotent` | Projects/UOContent/Misc/ShrinkTable.cs:57 | trimming a trimmed line changes nothing |
| `Shrink.Split` | Projects/UOContent/Misc/ShrinkTable.cs:66 | at least one field, none containing the separator |
| `Shrink.JoinSplit` | Projects/UOContent/Misc/ShrinkTable.cs:66 | joining the fields with the separator gives the line back |
| `Shrink.SplitHasTwoFields` | Projects/UOContent/Misc/ShrinkTable.cs:66-68 | there are two or more fields exactly when the line holds a tab |
| `Shrink.ParseLine` | Projects/UOContent/Misc/ShrinkTable.cs:57-72 | a line sets something only when, trimmed, it is not empty, not a `#` comment, and holds a tab |
| `Shrink.Apply` | Projects/UOContent/Misc/ShrinkTable.cs:73-76 | applying a line keeps the table's size |
| `Shrink.TableOf` | Projects/UOContent/Misc/ShrinkTable.cs:44-50 | a missing file gives an empty table; a present one a 1000-entry table |
| `Shrink.Load` | Projects/UOContent/Misc/ShrinkTable.cs:40-84 | the loaded array is fresh and holds the table the file specifies |
| `Shrink.LoadLine` | Projects/UOContent/Misc/ShrinkTable.cs:55-82 | one pass of the loop applies what the line sets to the table |
| `Shrink.ApplyHere` | Projects/UOContent/Misc/ShrinkTable.cs:73-76 | a line that sets an in-range body leaves its item there |
| `Shrink.ApplyElsewhere` | Projects/UOContent/Misc/ShrinkTable.cs:73-76 | a line that does not set a body keeps that body's entry |
| `Shrink.ReplayUnset` | Projects/UOContent/Misc/ShrinkTable.cs:50-83 | a body no entry sets stays zero |
| `Shrink.ReplayLastWins` | Projects/UOContent/Misc/ShrinkTable.cs:55-83 | the last entry that sets a body decides its value |
| `Shrink.UnsetEntryIsZero` | Projects/UOContent/Misc/ShrinkTable.cs:50-83 | a body no line of the file sets stays zero after loading |
| `Shrink.LastLineWins` | Projects/UOContent/Misc/ShrinkTable.cs:55-83 | later lines overwrite: a body holds the item of the last line that sets it |
| `Shrink.IgnoredLine` | Projects/UOContent/Misc/ShrinkTable.cs:59-68 | blank lines, comment lines and lines without a tab change nothing |
| `Shrink.MissingFileLooksUpDefault` | Projects/UOContent/Misc/ShrinkTable.cs:44-48 | without the file every lookup gives the default |
| `Shrink.LookupAfterLoad` | Projects/UOContent/Misc/ShrinkTable.cs:18-83 | after loading, an out-of-range body or one no line sets looks up as the default |
| `Shrink.LookupLastLine` | Projects/UOContent/Misc/ShrinkTable.cs:18-83 | after loading, the body's last setting line gives its item, or the default when that item is zero |

## Left out

- Reading floats, decimals, dates, time spans, IP addresses, maps and races is not modelled. These readers either need floating point or the clock, or index server-wide registries.
- Text decoding is not modelled. `ReadString` returns the raw payload bytes of a present string; UTF-8 decoding is not modelled. `ReadString` assumes that the payload lies in the buffer, where the runtime would throw.
- The guild special case of `ReadEntity` is not modelled. There, a guild type looks up in the guild registry. The model takes a single lookup function, standing for whichever registry the entity type selects, together with the `as T` cast.
- Where the runtime would throw on a short buffer, the reads require enough bytes instead. `Read` with a too-long destination is the exception: it returns its out-of-memory error.
- The packet compilers themselves are not part of this model. The models are the expected layouts of the tests. The tests of death animation, bond status and mobile moving compare only against another compiled packet and show no layout.
- Several helpers are inputs to the model, of fixed width:
  - attribute pairs, reverse attribute pairs and the location writer: 4, 4 and 5 bytes;
  - the packet flags, the notoriety, beholder visibility, the synthetic hair serials, a weapon's damage range, the AOS status values and the rename permission.

  The clamping of low attribute values happens inside these helpers, so it is not modelled.
- The byte order of the span writer is a parameter. The writer's source is not part of this model.
- `MobilePackets.HairLayer` and `MobilePackets.FacialHairLayer` are fixed at 0x0B and 0x10. The layer enumeration is not part of this model. An item's layer is taken to fit a byte.
- The pre-AOS armor rating arrives already rounded, because it is a floating-point value in the source.
- A null name is treated as the empty name.
- The local-initialisation switch is modelled only where it changes bytes. That is the update packet's reserved field and the two initialisation utilities. Elsewhere the zero-initialised bytes the tests skip over are the same zeros the other build writes.
- The animation test hands the negated reverse flag to the packet it compiles while writing the flag itself into the expected bytes. The model describes the expected bytes with the flag that is written.
- The packets are values. Only the status, incoming, equipment-walk and table methods mirror the tests' step-by-step construction.
- `Network.InitializePackets` requires a positive slot length in the build that writes. With a zero slot length the source would loop forever; with a negative one it would fail on a negative index. The wrap-around of its 32-bit index near `int.MaxValue` is not modelled.
- `Network.PacketWriter.WritePacketLength` covers both writers with one shape: a cursor over a fixed buffer. The circular writer's wrapping across its two segments is not modelled.
- The shrink table's file I/O is not modelled. It is given as its lines, or as nothing when the file is missing. The table's lazy load on first lookup is modelled as loading before lookup.
- The integer parser is a parameter. Its failure stands for the exception that the load loop swallows.
- `Shrink.Trim` removes the characters the runtime counts as white space, listed explicitly.
- `MobilePackets.AsciiFixed`: the name is taken as bytes already encoded in ASCII. The character-to-byte conversion of the fixed-width text writer is not modelled; that writer is not part of this model.
- The writer of the encoded int is not modelled, since it is not part of the reader.
