/** The release check of a disk image: GPT header, partition table and boot content. */
module GptCheck {
  import opened Common

  datatype Firmware = Bios | Uefi

  const SECTOR := 512
  const ESP_GUID: seq<byte> :=
    [0x28, 0x73, 0x2a, 0xc1, 0x1f, 0xf8, 0xd2, 0x11, 0xba, 0x4b, 0x00, 0xa0, 0xc9, 0x3e, 0xc9, 0x3b]
  const BIOS_GUID: seq<byte> :=
    [0x48, 0x61, 0x68, 0x21, 0x49, 0x64, 0x6f, 0x6e, 0x74, 0x4e, 0x65, 0x65, 0x64, 0x45, 0x46, 0x49]
  const EFI_PART: seq<byte> := [0x45, 0x46, 0x49, 0x20, 0x50, 0x41, 0x52, 0x54]
  const FAT32: seq<byte> := [0x46, 0x41, 0x54, 0x33, 0x32, 0x20, 0x20, 0x20]
  const FAT16: seq<byte> := [0x46, 0x41, 0x54, 0x31, 0x36, 0x20, 0x20, 0x20]
  const BOOT_MARK: seq<byte> := [0x55, 0xaa]

  /** seek(from) then read(n): short at the end of the file. */
  function ReadAt(image: seq<byte>, from: nat, n: nat): (r: seq<byte>)
    ensures from + n <= |image| ==> r == image[from..from + n]
    ensures |r| <= n
  {
    if from >= |image| then []
    else if from + n <= |image| then image[from..from + n]
    else image[from..]
  }

  predicate AnyNonZero(s: seq<byte>) {
    exists i :: 0 <= i < |s| && s[i] != 0
  }

  /** Little-endian number of a field. */
  function LittleEndian(s: seq<byte>): nat {
    if s == [] then 0 else s[0] as int + 256 * LittleEndian(s[1..])
  }

  function Zeroed(header: seq<byte>): (r: seq<byte>)
    requires |header| >= 20
    ensures |r| == |header|
  {
    header[..16] + [0, 0, 0, 0] + header[20..]
  }

  // ----- the requirements, one by one -----

  predicate HasMbrBootCode(image: seq<byte>) {
    |image| >= SECTOR && image[510..512] == BOOT_MARK && AnyNonZero(image[..440])
  }

  /** The header's own checksum, computed with its four checksum bytes taken as zero. */
  predicate ChecksumHolds(header: seq<byte>, crc: seq<byte> -> nat)
    requires |header| >= 20
  {
    crc(Zeroed(header)) == LittleEndian(header[16..20])
  }

  /** Sector 1 is a GPT header of the UEFI Specification, section 5.3.2, with a valid checksum. */
  predicate HeaderHolds(image: seq<byte>, crc: seq<byte> -> nat) {
    && |image| >= 2 * SECTOR
    && var header := image[SECTOR..2 * SECTOR];
       var size := LittleEndian(header[12..16]);
       header[..8] == EFI_PART && 92 <= size <= SECTOR && ChecksumHolds(header[..size], crc)
  }

  /** Where the partition entries are, as the header says. */
  datatype Table = Table(start: nat, count: nat, entrySize: nat, checksum: nat)

  function TableOf(image: seq<byte>): Table
    requires |image| >= 2 * SECTOR
  {
    var header := image[SECTOR..2 * SECTOR];
    Table(LittleEndian(header[72..80]) * SECTOR, LittleEndian(header[80..84]),
          LittleEndian(header[84..88]), LittleEndian(header[88..92]))
  }

  /** Offset of the i-th entry in the table. */
  function Offset(t: Table, i: nat): nat {
    i * t.entrySize
  }

  lemma OffsetStep(t: Table, i: nat)
    ensures Offset(t, i + 1) == Offset(t, i) + t.entrySize
    ensures i < t.count ==> Offset(t, i) + t.entrySize <= Offset(t, t.count)
    ensures t.entrySize > 0 ==> (i < t.count <==> Offset(t, i) < Offset(t, t.count))
  {
    if i < t.count {
      assert (i + 1) * t.entrySize <= t.count * t.entrySize;
    } else {
      assert t.count * t.entrySize <= i * t.entrySize;
    }
  }

  /** The table of section 5.3.3 lies in the image, has sane bounds, and matches its checksum. */
  predicate TableHolds(image: seq<byte>, t: Table, crc: seq<byte> -> nat) {
    && 0 < t.count <= 16384 && 128 <= t.entrySize <= 4096
    && t.start + Offset(t, t.count) <= |image|
    && crc(image[t.start..t.start + Offset(t, t.count)]) == t.checksum
  }

  /** The i-th partition entry. */
  function EntryOf(image: seq<byte>, t: Table, i: nat): (e: seq<byte>)
    requires i < t.count && t.start + Offset(t, t.count) <= |image|
    ensures |e| == t.entrySize
  {
    OffsetStep(t, i);
    image[t.start + Offset(t, i)..t.start + Offset(t, i) + t.entrySize]
  }

  predicate HasBootSector(image: seq<byte>, at: nat)
    requires at + SECTOR <= |image|
  {
    image[at + 510..at + 512] == BOOT_MARK &&
    (image[at + 82..at + 90] == FAT32 || image[at + 54..at + 62] == FAT16)
  }

  /** A partition entry of the required type, inside the image, with the required boot content. */
  predicate Bootable(image: seq<byte>, entry: seq<byte>, firmware: Firmware)
    requires |entry| >= 128
  {
    var first, last := LittleEndian(entry[32..40]), LittleEndian(entry[40..48]);
    && entry[..16] == (if firmware == Uefi then ESP_GUID else BIOS_GUID)
    && 0 < first <= last && (last + 1) * SECTOR <= |image|
    && match firmware
       case Uefi => HasBootSector(image, first * SECTOR)
       case Bios => AnyNonZero(image[first * SECTOR..first * SECTOR + AtMost64K((last - first + 1) * SECTOR)])
  }

  /** The check reads no more of a BIOS boot partition than this. */
  function AtMost64K(n: nat): nat {
    if n < 65536 then n else 65536
  }

  predicate EntryBoots(image: seq<byte>, t: Table, firmware: Firmware, i: nat)
    requires i < t.count && t.entrySize >= 128 && t.start + Offset(t, t.count) <= |image|
  {
    Bootable(image, EntryOf(image, t, i), firmware)
  }

  /** Exactly the images that pass. */
  predicate Accepts(image: seq<byte>, firmware: Firmware, crc: seq<byte> -> nat) {
    && (firmware == Bios ==> HasMbrBootCode(image))
    && HeaderHolds(image, crc)
    && TableHolds(image, TableOf(image), crc)
    && exists i: nat :: i < TableOf(image).count && EntryBoots(image, TableOf(image), firmware, i)
  }

  /** The boot-content test on one entry, as the loop body performs it. */
  method CheckEntry(image: seq<byte>, entry: seq<byte>, firmware: Firmware) returns (ok: bool)
    requires |entry| >= 128
    ensures ok <==> Bootable(image, entry, firmware)
  {
    hide LittleEndian, HasBootSector, AnyNonZero;
    if entry[..16] != (if firmware == Uefi then ESP_GUID else BIOS_GUID) {
      return false;
    }
    var first, last := LittleEndian(entry[32..40]), LittleEndian(entry[40..48]);
    if !(first > 0 && first <= last && (last + 1) * SECTOR <= |image|) {
      return false;
    }
    if firmware == Bios {
      return AnyNonZero(ReadAt(image, first * SECTOR, AtMost64K((last - first + 1) * SECTOR)));
    }
    ok := CheckBootSector(image, first * SECTOR);
  }

  lemma SubSlice(s: seq<byte>, from: nat, n: nat, i: nat, j: nat)
    requires from + n <= |s| && i <= j <= n
    ensures s[from..from + n][i..j] == s[from + i..from + j]
  {
    var a, b := s[from..from + n][i..j], s[from + i..from + j];
    forall k | 0 <= k < j - i
      ensures a[k] == b[k]
    {
      assert s[from..from + n][i + k] == s[from + (i + k)];
    }
  }

  method CheckBootSector(image: seq<byte>, at: nat) returns (ok: bool)
    requires at + SECTOR <= |image|
    ensures ok <==> HasBootSector(image, at)
  {
    var sector := ReadAt(image, at, SECTOR);
    SubSlice(image, at, SECTOR, 510, 512);
    SubSlice(image, at, SECTOR, 82, 90);
    SubSlice(image, at, SECTOR, 54, 62);
    assert sector[510..] == sector[510..512];
    ok := |sector| == 512 && sector[510..] == BOOT_MARK && (sector[82..90] == FAT32 || sector[54..62] == FAT16);
  }

  method CheckMbr(image: seq<byte>) returns (ok: bool)
    ensures ok <==> HasMbrBootCode(image)
  {
    var mbr := ReadAt(image, 0, 512);
    if |mbr| != 512 {
      return false;
    }
    SubSlice(image, 0, 512, 510, 512);
    SubSlice(image, 0, 512, 0, 440);
    assert mbr[510..] == mbr[510..512] && image[0..512][0..440] == image[..440];
    ok := mbr[510..] == BOOT_MARK && AnyNonZero(mbr[..440]);
  }

  method CheckHeader(image: seq<byte>, crc: seq<byte> -> nat) returns (ok: bool)
    ensures ok <==> HeaderHolds(image, crc)
  {
    hide LittleEndian;
    var header := ReadAt(image, 512, 512);
    if |header| != 512 || header[..8] != EFI_PART {
      return false;
    }
    var headerSize, headerCrc := LittleEndian(header[12..16]), LittleEndian(header[16..20]);
    if !(92 <= headerSize <= 512) {
      return false;
    }
    var headerCopy := header[..headerSize];
    assert headerCopy[16..20] == header[16..20];
    ok := crc(Zeroed(headerCopy)) == headerCrc;
  }

  /** `check_disk_image`. */
  method CheckDiskImage(image: seq<byte>, firmware: Firmware, crc: seq<byte> -> nat) returns (ok: bool)
    ensures ok <==> Accepts(image, firmware, crc)
  {
    hide LittleEndian, Bootable, HasMbrBootCode, TableOf, Offset;
    if firmware == Bios {
      ok := CheckMbr(image);
      if !ok {
        return;
      }
    }
    ok := CheckHeader(image, crc);
    if !ok {
      return;
    }
    var t := TableOf(image);
    var tableSize := Offset(t, t.count);
    if !(0 < t.count <= 16384 && 128 <= t.entrySize <= 4096 && t.start + tableSize <= |image|) {
      return false;
    }
    var table := ReadAt(image, t.start, tableSize);
    if |table| != tableSize || crc(table) != t.checksum {
      return false;
    }
    ok := FindBootable(image, t, table, firmware);
  }

  lemma EntrySlice(image: seq<byte>, t: Table, i: nat)
    requires i < t.count && t.start + Offset(t, t.count) <= |image|
    ensures Offset(t, i) + t.entrySize <= Offset(t, t.count)
    ensures image[t.start..t.start + Offset(t, t.count)][Offset(t, i)..Offset(t, i) + t.entrySize] ==
            EntryOf(image, t, i)
  {
    OffsetStep(t, i);
    SubSlice(image, t.start, Offset(t, t.count), Offset(t, i), Offset(t, i) + t.entrySize);
  }

  /** The loop over the entries of the table just read. */
  method FindBootable(image: seq<byte>, t: Table, table: seq<byte>, firmware: Firmware) returns (ok: bool)
    requires t.entrySize >= 128 && t.start + Offset(t, t.count) <= |image|
    requires table == image[t.start..t.start + Offset(t, t.count)]
    ensures ok <==> exists i: nat :: i < t.count && EntryBoots(image, t, firmware, i)
  {
    assert Offset(t, 0) == 0;
    hide Offset, Bootable, EntryOf;
    var offset := 0;
    ghost var i := 0;
    while offset < |table|
      invariant 0 <= i <= t.count && offset == Offset(t, i)
      invariant forall j: nat :: j < i ==> !EntryBoots(image, t, firmware, j)
      decreases t.count - i
    {
      OffsetStep(t, i);
      EntrySlice(image, t, i);
      ok := CheckEntry(image, table[offset..offset + t.entrySize], firmware);
      assert ok <==> EntryBoots(image, t, firmware, i);
      if ok {
        return;
      }
      offset := offset + t.entrySize;
      i := i + 1;
    }
    OffsetStep(t, i);
    ok := false;
  }

  // ----- checksums that exclude themselves -----

  function Power256(n: nat): nat {
    if n == 0 then 1 else 256 * Power256(n - 1)
  }

  /** `width` bytes of a number, least significant first. */
  function LittleBytes(n: nat, width: nat): (r: seq<byte>)
    ensures |r| == width
  {
    if width == 0 then [] else [n % 256] + LittleBytes(n / 256, width - 1)
  }

  lemma {:induction false} LittleRoundTrip(n: nat, width: nat)
    requires n < Power256(width)
    ensures LittleEndian(LittleBytes(n, width)) == n
  {
    if width > 0 {
      LittleRoundTrip(n / 256, width - 1);
      assert LittleBytes(n, width)[1..] == LittleBytes(n / 256, width - 1);
    }
  }

  lemma {:induction false} LittleEndianInjective(a: seq<byte>, b: seq<byte>)
    requires |a| == |b| && LittleEndian(a) == LittleEndian(b)
    ensures a == b
  {
    if a != [] {
      LittleEndianInjective(a[1..], b[1..]);
      assert a == [a[0]] + a[1..] && b == [b[0]] + b[1..];
    }
  }

  /** The header with its checksum field filled in from the zeroed copy. */
  function Patched(header: seq<byte>, crc: seq<byte> -> nat): (r: seq<byte>)
    requires |header| >= 20 && crc(Zeroed(header)) < Power256(4)
    ensures |r| == |header|
  {
    header[..16] + LittleBytes(crc(Zeroed(header)), 4) + header[20..]
  }

  /** Patching makes the checksum hold, and it is the only value of bytes 16 to 19 that does. */
  lemma OnlyPatchedHolds(header: seq<byte>, crc: seq<byte> -> nat, other: seq<byte>)
    requires |header| >= 20 && crc(Zeroed(header)) < Power256(4)
    requires |other| == |header| && other[..16] == header[..16] && other[20..] == header[20..]
    ensures ChecksumHolds(other, crc) <==> other == Patched(header, crc)
  {
    var sum := crc(Zeroed(header));
    var patched := Patched(header, crc);
    assert Zeroed(other) == Zeroed(header);
    assert patched[16..20] == LittleBytes(sum, 4);
    LittleRoundTrip(sum, 4);
    assert other == other[..16] + other[16..20] + other[20..];
    if ChecksumHolds(other, crc) {
      LittleEndianInjective(other[16..20], LittleBytes(sum, 4));
    }
  }

  // ----- the layout, written out -----

  /** `bytes` stand at this offset of the image. */
  predicate Holds(image: seq<byte>, at: nat, bytes: seq<byte>) {
    at + |bytes| <= |image| && image[at..at + |bytes|] == bytes
  }

  /** A field of `width` bytes holds `n`, least significant byte first. */
  predicate HoldsNumber(image: seq<byte>, at: nat, n: nat, width: nat) {
    n < Power256(width) && Holds(image, at, LittleBytes(n, width))
  }

  lemma NumberReads(image: seq<byte>, at: nat, n: nat, width: nat)
    requires HoldsNumber(image, at, n, width)
    ensures at + width <= |image| && LittleEndian(image[at..at + width]) == n
  {
    LittleRoundTrip(n, width);
  }

  /** A field inside a slice of the image. */
  lemma FieldReads(image: seq<byte>, from: nat, len: nat, at: nat, n: nat, width: nat)
    requires from + len <= |image| && at + width <= len && HoldsNumber(image, from + at, n, width)
    ensures LittleEndian(image[from..from + len][at..at + width]) == n
  {
    SubSlice(image, from, len, at, at + width);
    NumberReads(image, from + at, n, width);
  }

  /** The header of sector 1 as section 5.3.2 of the UEFI Specification lays it out: signature at 0, header size at 12,
      its checksum at 16, and the table's first block at 72, number of entries at 80, entry size at 84 and checksum
      at 88. */
  ghost predicate HeaderWritten(image: seq<byte>, crc: seq<byte> -> nat, size: nat, lba: nat, t: Table) {
    && |image| >= 1024 && 92 <= size <= 512
    && Holds(image, 512, EFI_PART)
    && HoldsNumber(image, 512 + 12, size, 4)
    && HoldsNumber(image, 512 + 16, crc(Zeroed(image[512..512 + size])), 4)
    && HoldsNumber(image, 512 + 72, lba, 8) && t.start == lba * 512
    && HoldsNumber(image, 512 + 80, t.count, 4)
    && HoldsNumber(image, 512 + 84, t.entrySize, 4)
    && HoldsNumber(image, 512 + 88, t.checksum, 4)
  }

  /** Entry `i` as section 5.3.3 lays it out: type at 0, first and last block at 32 and 40. */
  ghost predicate EntryWritten(image: seq<byte>, t: Table, i: nat, guid: seq<byte>, first: nat, last: nat) {
    var at := t.start + i * t.entrySize;
    && i < t.count && |guid| == 16 && Holds(image, at, guid)
    && HoldsNumber(image, at + 32, first, 8) && HoldsNumber(image, at + 40, last, 8)
  }

  lemma TableReads(image: seq<byte>, crc: seq<byte> -> nat, size: nat, lba: nat, t: Table)
    requires HeaderWritten(image, crc, size, lba, t)
    ensures TableOf(image) == t
  {
    hide LittleEndian, LittleBytes, HoldsNumber;
    FieldReads(image, 512, 512, 72, lba, 8);
    FieldReads(image, 512, 512, 80, t.count, 4);
    FieldReads(image, 512, 512, 84, t.entrySize, 4);
    FieldReads(image, 512, 512, 88, t.checksum, 4);
  }

  lemma HeaderReads(image: seq<byte>, crc: seq<byte> -> nat, size: nat, lba: nat, t: Table)
    requires HeaderWritten(image, crc, size, lba, t)
    ensures HeaderHolds(image, crc)
  {
    hide LittleEndian, LittleBytes, HoldsNumber;
    var header := image[512..1024];
    FieldReads(image, 512, 512, 12, size, 4);
    SubSlice(image, 512, 512, 0, 8);
    assert header[0..8] == header[..8];
    SubSlice(image, 512, 512, 0, size);
    assert header[0..size] == header[..size];
    FieldReads(image, 512, size, 16, crc(Zeroed(image[512..512 + size])), 4);
  }

  lemma EntryReads(image: seq<byte>, t: Table, i: nat, guid: seq<byte>, first: nat, last: nat)
    requires EntryWritten(image, t, i, guid, first, last)
    requires t.entrySize >= 128 && t.start + Offset(t, t.count) <= |image|
    ensures var e := EntryOf(image, t, i);
            e[..16] == guid && LittleEndian(e[32..40]) == first && LittleEndian(e[40..48]) == last
  {
    hide LittleEndian, LittleBytes, HoldsNumber;
    OffsetStep(t, i);
    var at := t.start + Offset(t, i);
    SubSlice(image, at, t.entrySize, 0, 16);
    assert image[at..at + t.entrySize][0..16] == image[at..at + t.entrySize][..16];
    FieldReads(image, at, t.entrySize, 32, first, 8);
    FieldReads(image, at, t.entrySize, 40, last, 8);
  }

  /** A table of the stated size within its bounds, with the stated checksum. */
  ghost predicate TableWritten(image: seq<byte>, crc: seq<byte> -> nat, t: Table) {
    && 0 < t.count <= 16384 && 128 <= t.entrySize <= 4096
    && t.start + t.count * t.entrySize <= |image|
    && crc(image[t.start..t.start + t.count * t.entrySize]) == t.checksum
  }

  /** What the check reads from a written image. */
  lemma LayoutReads(image: seq<byte>, crc: seq<byte> -> nat, size: nat, lba: nat, t: Table,
                    i: nat, guid: seq<byte>, first: nat, last: nat)
    requires HeaderWritten(image, crc, size, lba, t) && TableWritten(image, crc, t)
    requires EntryWritten(image, t, i, guid, first, last)
    ensures HeaderHolds(image, crc) && TableOf(image) == t && TableHolds(image, t, crc)
    ensures i < t.count && t.entrySize >= 128 && t.start + Offset(t, t.count) <= |image|
    ensures var e := EntryOf(image, t, i);
            e[..16] == guid && LittleEndian(e[32..40]) == first && LittleEndian(e[40..48]) == last
  {
    hide LittleEndian, HeaderHolds, TableOf, HeaderWritten, EntryWritten;
    TableReads(image, crc, size, lba, t);
    TableIsWithin(image, crc, t);
    EntryReads(image, t, i, guid, first, last);
    HeaderReads(image, crc, size, lba, t);
    EntryInTable(image, t, i, guid, first, last);
  }

  lemma TableIsWithin(image: seq<byte>, crc: seq<byte> -> nat, t: Table)
    requires TableWritten(image, crc, t)
    ensures TableHolds(image, t, crc)
  {
  }

  lemma EntryInTable(image: seq<byte>, t: Table, i: nat, guid: seq<byte>, first: nat, last: nat)
    requires EntryWritten(image, t, i, guid, first, last)
    ensures i < t.count
  {
  }

  /** A written image with an EFI System Partition somewhere in its table, in the image and with a FAT boot sector. */
  ghost predicate UefiWritten(image: seq<byte>, crc: seq<byte> -> nat, size: nat, lba: nat, t: Table,
                              i: nat, first: nat, last: nat)
  {
    && HeaderWritten(image, crc, size, lba, t) && TableWritten(image, crc, t)
    && EntryWritten(image, t, i, ESP_GUID, first, last)
    && 0 < first <= last && (last + 1) * 512 <= |image|
    && Holds(image, first * 512 + 510, [0x55, 0xaa])
    && (Holds(image, first * 512 + 82, FAT32) || Holds(image, first * 512 + 54, FAT16))
  }

  lemma UefiLayoutAccepted(image: seq<byte>, crc: seq<byte> -> nat, size: nat, lba: nat, t: Table,
                           i: nat, first: nat, last: nat)
    requires UefiWritten(image, crc, size, lba, t, i, first, last)
    ensures Accepts(image, Uefi, crc)
  {
    assert HeaderWritten(image, crc, size, lba, t) && TableWritten(image, crc, t);
    assert EntryWritten(image, t, i, ESP_GUID, first, last);
    hide HeaderWritten, TableWritten, EntryWritten;
    hide HeaderHolds, TableHolds, TableOf, Accepts, Bootable, EntryOf, Offset;
    LayoutReads(image, crc, size, lba, t, i, ESP_GUID, first, last);
    UefiEntryBoots(image, EntryOf(image, t, i), first, last);
    AcceptsByEntry(image, crc, Uefi, t, i);
  }

  lemma UefiEntryBoots(image: seq<byte>, entry: seq<byte>, first: nat, last: nat)
    requires |entry| >= 128 && entry[..16] == ESP_GUID
    requires LittleEndian(entry[32..40]) == first && LittleEndian(entry[40..48]) == last
    requires 0 < first <= last && (last + 1) * 512 <= |image|
    requires Holds(image, first * 512 + 510, [0x55, 0xaa])
    requires Holds(image, first * 512 + 82, FAT32) || Holds(image, first * 512 + 54, FAT16)
    ensures Bootable(image, entry, Uefi)
  {
    hide LittleEndian;
  }

  lemma NonZeroInside(image: seq<byte>, from: nat, n: nat, at: nat)
    requires from + n <= |image| && from <= at < from + n && image[at] != 0
    ensures AnyNonZero(image[from..from + n])
  {
    assert image[from..from + n][at - from] == image[at];
  }

  lemma BootCodeAccepted(image: seq<byte>, code: nat)
    requires |image| >= 512 && Holds(image, 510, [0x55, 0xaa]) && code < 440 && image[code] != 0
    ensures HasMbrBootCode(image)
  {
    NonZeroInside(image, 0, 440, code);
    assert image[0..440] == image[..440];
  }

  /** A written image with boot code in its first sector, and a BIOS boot partition somewhere in its table, in the
      image and with something in its first 64 KiB. */
  ghost predicate BiosWritten(image: seq<byte>, crc: seq<byte> -> nat, size: nat, lba: nat, t: Table,
                              i: nat, first: nat, last: nat, code: nat, core: nat)
  {
    && HeaderWritten(image, crc, size, lba, t) && TableWritten(image, crc, t)
    && EntryWritten(image, t, i, BIOS_GUID, first, last)
    && 0 < first <= last && (last + 1) * 512 <= |image|
    && Holds(image, 510, [0x55, 0xaa]) && code < 440 && image[code] != 0
    && first * 512 <= core < (last + 1) * 512 && core < first * 512 + 65536 && image[core] != 0
  }

  lemma BiosLayoutAccepted(image: seq<byte>, crc: seq<byte> -> nat, size: nat, lba: nat, t: Table,
                           i: nat, first: nat, last: nat, code: nat, core: nat)
    requires BiosWritten(image, crc, size, lba, t, i, first, last, code, core)
    ensures Accepts(image, Bios, crc)
  {
    assert HeaderWritten(image, crc, size, lba, t) && TableWritten(image, crc, t);
    assert EntryWritten(image, t, i, BIOS_GUID, first, last);
    hide HeaderWritten, TableWritten, EntryWritten;
    hide HeaderHolds, TableHolds, TableOf, Accepts, Bootable, EntryOf, Offset;
    hide HasMbrBootCode;
    LayoutReads(image, crc, size, lba, t, i, BIOS_GUID, first, last);
    BootCodeAccepted(image, code);
    BiosEntryBoots(image, EntryOf(image, t, i), first, last, core);
    AcceptsByEntry(image, crc, Bios, t, i);
  }

  lemma BiosEntryBoots(image: seq<byte>, entry: seq<byte>, first: nat, last: nat, core: nat)
    requires |entry| >= 128 && entry[..16] == BIOS_GUID
    requires LittleEndian(entry[32..40]) == first && LittleEndian(entry[40..48]) == last
    requires 0 < first <= last && (last + 1) * 512 <= |image|
    requires first * 512 <= core < (last + 1) * 512 && core < first * 512 + 65536 && image[core] != 0
    ensures Bootable(image, entry, Bios)
  {
    NonZeroInside(image, first * 512, AtMost64K((last - first + 1) * 512), core);
    hide LittleEndian, AnyNonZero;
  }

  lemma AcceptsByEntry(image: seq<byte>, crc: seq<byte> -> nat, firmware: Firmware, t: Table, i: nat)
    requires HeaderHolds(image, crc) && TableOf(image) == t && TableHolds(image, t, crc)
    requires i < t.count && Bootable(image, EntryOf(image, t, i), firmware)
    requires firmware == Bios ==> HasMbrBootCode(image)
    ensures Accepts(image, firmware, crc)
  {
    hide HeaderHolds, TableOf, Bootable, HasMbrBootCode;
    assert EntryBoots(image, t, firmware, i);
  }

  // ----- and back -----

  lemma {:induction false} LittleOfBytes(s: seq<byte>)
    ensures LittleEndian(s) < Power256(|s|) && LittleBytes(LittleEndian(s), |s|) == s
  {
    if s != [] {
      LittleOfBytes(s[1..]);
      assert LittleEndian(s) % 256 == s[0] as int && LittleEndian(s) / 256 == LittleEndian(s[1..]);
      assert s == [s[0]] + s[1..];
    }
  }

  /** Whatever a field holds, it holds the number read from it. */
  lemma FieldHolds(image: seq<byte>, from: nat, len: nat, at: nat, width: nat)
    requires from + len <= |image| && at + width <= len
    ensures HoldsNumber(image, from + at, LittleEndian(image[from..from + len][at..at + width]), width)
  {
    SubSlice(image, from, len, at, at + width);
    LittleOfBytes(image[from + at..from + at + width]);
  }

  lemma AcceptedHeader(image: seq<byte>, crc: seq<byte> -> nat) returns (size: nat, lba: nat)
    requires HeaderHolds(image, crc)
    ensures HeaderWritten(image, crc, size, lba, TableOf(image))
  {
    var header := image[512..1024];
    size, lba := LittleEndian(header[12..16]), LittleEndian(header[72..80]);
    hide LittleEndian, LittleBytes, HoldsNumber, Power256;
    SubSlice(image, 512, 512, 0, 8);
    assert header[0..8] == header[..8];
    SubSlice(image, 512, 512, 0, size);
    assert header[0..size] == header[..size] == image[512..512 + size];
    FieldHolds(image, 512, 512, 12, 4);
    FieldHolds(image, 512, 512, 72, 8);
    FieldHolds(image, 512, 512, 80, 4);
    FieldHolds(image, 512, 512, 84, 4);
    FieldHolds(image, 512, 512, 88, 4);
    FieldHolds(image, 512, size, 16, 4);
  }

  lemma AcceptedEntry(image: seq<byte>, t: Table, i: nat)
    requires i < t.count && t.entrySize >= 128 && t.start + Offset(t, t.count) <= |image|
    ensures var e := EntryOf(image, t, i);
            EntryWritten(image, t, i, e[..16], LittleEndian(e[32..40]), LittleEndian(e[40..48]))
  {
    hide LittleEndian, LittleBytes, HoldsNumber, Power256;
    OffsetStep(t, i);
    var at := t.start + Offset(t, i);
    SubSlice(image, at, t.entrySize, 0, 16);
    assert image[at..at + t.entrySize][0..16] == image[at..at + t.entrySize][..16];
    FieldHolds(image, at, t.entrySize, 32, 8);
    FieldHolds(image, at, t.entrySize, 40, 8);
  }

  lemma AcceptedTable(image: seq<byte>, crc: seq<byte> -> nat, t: Table)
    requires TableHolds(image, t, crc)
    ensures TableWritten(image, crc, t)
  {
  }

  /** The parts of an acceptance, one by one. */
  lemma AcceptedParts(image: seq<byte>, crc: seq<byte> -> nat, firmware: Firmware) returns (t: Table, i: nat)
    requires Accepts(image, firmware, crc)
    ensures HeaderHolds(image, crc) && TableOf(image) == t && TableHolds(image, t, crc)
    ensures i < t.count && t.entrySize >= 128 && t.start + Offset(t, t.count) <= |image|
    ensures Bootable(image, EntryOf(image, t, i), firmware) && (firmware == Bios ==> HasMbrBootCode(image))
  {
    t := TableOf(image);
    hide TableOf, HeaderHolds, EntryOf, Bootable, HasMbrBootCode;
    i :| i < t.count && EntryBoots(image, t, firmware, i);
  }

  lemma UefiPartition(image: seq<byte>, e: seq<byte>)
    requires |e| >= 128 && Bootable(image, e, Uefi)
    ensures var first, last := LittleEndian(e[32..40]), LittleEndian(e[40..48]);
            && e[..16] == ESP_GUID && 0 < first <= last && (last + 1) * 512 <= |image|
            && Holds(image, first * 512 + 510, [0x55, 0xaa])
            && (Holds(image, first * 512 + 82, FAT32) || Holds(image, first * 512 + 54, FAT16))
  {
    hide LittleEndian;
  }

  lemma BiosPartition(image: seq<byte>, e: seq<byte>) returns (core: nat)
    requires |e| >= 128 && Bootable(image, e, Bios)
    ensures var first, last := LittleEndian(e[32..40]), LittleEndian(e[40..48]);
            && e[..16] == BIOS_GUID && 0 < first <= last && (last + 1) * 512 <= |image|
            && first * 512 <= core < (last + 1) * 512 && core < first * 512 + 65536 && image[core] != 0
  {
    hide LittleEndian, AnyNonZero;
    var first, last := LittleEndian(e[32..40]), LittleEndian(e[40..48]);
    core := NonZeroAt(image, first * 512, AtMost64K((last - first + 1) * 512));
  }

  lemma AcceptedIsUefi(image: seq<byte>, crc: seq<byte> -> nat)
    requires Accepts(image, Uefi, crc)
    ensures exists size, lba, t, i, first, last :: UefiWritten(image, crc, size, lba, t, i, first, last)
  {
    hide Accepts, LittleEndian, TableOf, HeaderHolds, EntryOf, Bootable, HeaderWritten, TableWritten, EntryWritten;
    hide TableHolds, Offset, Holds;
    var t, i := AcceptedParts(image, crc, Uefi);
    var e := EntryOf(image, t, i);
    var size, lba := AcceptedHeader(image, crc);
    AcceptedTable(image, crc, t);
    AcceptedEntry(image, t, i);
    UefiPartition(image, e);
    assert UefiWritten(image, crc, size, lba, t, i, LittleEndian(e[32..40]), LittleEndian(e[40..48]));
  }

  lemma AcceptedIsBios(image: seq<byte>, crc: seq<byte> -> nat)
    requires Accepts(image, Bios, crc)
    ensures exists size, lba, t, i, first, last, code, core ::
              BiosWritten(image, crc, size, lba, t, i, first, last, code, core)
  {
    hide Accepts, LittleEndian, TableOf, HeaderHolds, EntryOf, Bootable, HeaderWritten, TableWritten, EntryWritten;
    hide TableHolds, Offset, HasMbrBootCode, Holds;
    var t, i := AcceptedParts(image, crc, Bios);
    var e := EntryOf(image, t, i);
    var size, lba := AcceptedHeader(image, crc);
    AcceptedTable(image, crc, t);
    AcceptedEntry(image, t, i);
    var core := BiosPartition(image, e);
    var code := BootCode(image);
    assert BiosWritten(image, crc, size, lba, t, i, LittleEndian(e[32..40]), LittleEndian(e[40..48]), code, core);
  }

  lemma BootCode(image: seq<byte>) returns (code: nat)
    requires HasMbrBootCode(image)
    ensures |image| >= 512 && Holds(image, 510, [0x55, 0xaa]) && code < 440 && image[code] != 0
  {
    assert image[0..440] == image[..440];
    code := NonZeroAt(image, 0, 440);
  }

  lemma NonZeroAt(image: seq<byte>, from: nat, n: nat) returns (at: nat)
    requires from + n <= |image| && AnyNonZero(image[from..from + n])
    ensures from <= at < from + n && image[at] != 0
  {
    var k :| 0 <= k < n && image[from..from + n][k] != 0;
    at := from + k;
  }

  /** Exactly the images that pass: those written in the layout of sections 5.3.2 and 5.3.3 with the bounds and
      checksums it asks for, and with the boot content the firmware needs. */
  lemma AcceptsIffWritten(image: seq<byte>, firmware: Firmware, crc: seq<byte> -> nat)
    ensures Accepts(image, firmware, crc) <==>
            if firmware == Uefi then
              exists size, lba, t, i, first, last :: UefiWritten(image, crc, size, lba, t, i, first, last)
            else
              exists size, lba, t, i, first, last, code, core ::
                BiosWritten(image, crc, size, lba, t, i, first, last, code, core)
  {
    hide Accepts, UefiWritten, BiosWritten;
    if firmware == Uefi {
      if Accepts(image, Uefi, crc) {
        AcceptedIsUefi(image, crc);
      }
      if size, lba, t, i, first, last :| UefiWritten(image, crc, size, lba, t, i, first, last) {
        UefiLayoutAccepted(image, crc, size, lba, t, i, first, last);
      }
    } else {
      if Accepts(image, Bios, crc) {
        AcceptedIsBios(image, crc);
      }
      if size, lba, t, i, first, last, code, core :|
           BiosWritten(image, crc, size, lba, t, i, first, last, code, core) {
        BiosLayoutAccepted(image, crc, size, lba, t, i, first, last, code, core);
      }
    }
  }

  /** The bytes of a text in ASCII. */
  function Ascii(text: string): seq<byte>
    requires forall i :: 0 <= i < |text| ==> text[i] as int < 128
  {
    seq(|text|, i requires 0 <= i < |text| => text[i] as int)
  }

  /** The signatures are the texts they stand for. */
  lemma Signatures()
    ensures EFI_PART == Ascii("EFI PART") && FAT32 == Ascii("FAT32   ") && FAT16 == Ascii("FAT16   ")
  {
  }

  /** A type as it is written: the first three fields least significant byte first, then eight bytes in order. */
  function Guid(a: nat, b: nat, c: nat, rest: seq<byte>): seq<byte> {
    LittleBytes(a, 4) + LittleBytes(b, 2) + LittleBytes(c, 2) + rest
  }

  /** The type of an EFI System Partition is C12A7328-F81F-11D2-BA4B-00A0C93EC93B. */
  lemma EspType()
    ensures ESP_GUID == Guid(0xC12A7328, 0xF81F, 0x11D2, [0xBA, 0x4B, 0x00, 0xA0, 0xC9, 0x3E, 0xC9, 0x3B])
  {
    hide LittleBytes, Guid;
    var rest := ESP_GUID[8..];
    assert rest == [0xBA, 0x4B, 0x00, 0xA0, 0xC9, 0x3E, 0xC9, 0x3B];
    GuidBytes(0xC12A7328, 0xF81F, 0x11D2, rest);
    assert ESP_GUID == ESP_GUID[..8] + rest;
  }

  /** The type of a BIOS boot partition is 21686148-6449-6E6F-744E-656564454649. */
  lemma BiosType()
    ensures BIOS_GUID == Guid(0x21686148, 0x6449, 0x6E6F, [0x74, 0x4E, 0x65, 0x65, 0x64, 0x45, 0x46, 0x49])
  {
    hide LittleBytes, Guid;
    var rest := BIOS_GUID[8..];
    assert rest == [0x74, 0x4E, 0x65, 0x65, 0x64, 0x45, 0x46, 0x49];
    GuidBytes(0x21686148, 0x6449, 0x6E6F, rest);
    assert BIOS_GUID == BIOS_GUID[..8] + rest;
  }

  lemma GuidBytes(a: nat, b: nat, c: nat, rest: seq<byte>)
    requires a < 0x1_0000_0000 && b < 0x10000 && c < 0x10000
    ensures Guid(a, b, c, rest) ==
            [a % 256, a / 256 % 256, a / 65536 % 256, a / 16777216, b % 256, b / 256, c % 256, c / 256] + rest
  {
    FourBytes(a);
    TwoBytes(b);
    TwoBytes(c);
    hide LittleBytes;
  }

  lemma TwoBytes(n: nat)
    requires n < 0x10000
    ensures LittleBytes(n, 2) == [n % 256, n / 256]
  {
    assert LittleBytes(n / 256, 1) == [n / 256] + LittleBytes(0, 0);
  }

  lemma FourBytes(n: nat)
    requires n < 0x1_0000_0000
    ensures LittleBytes(n, 4) == [n % 256, n / 256 % 256, n / 65536 % 256, n / 16777216]
  {
    TwoBytes(n / 65536);
    assert LittleBytes(n / 256, 3) == [n / 256 % 256] + LittleBytes(n / 65536, 2);
  }
}
