/** The hand-written walker that finds APKINDEX in an uncompressed tar archive. */
module Tar {
  import opened Common
  import opened PathNames

  const BLOCK := 512
  const USIZE_LIMIT := 0x1_0000_0000_0000_0000
  const ISIZE_MAX := 0x7fff_ffff_ffff_ffff

  const SLASH: byte := 47
  const DOT: byte := 46
  const APKINDEX: seq<byte> := [65, 80, 75, 73, 78, 68, 69, 88]

  /** What the walk over the archive returns: the index's bytes, no index, or an error. */
  datatype Walked = Found(content: seq<byte>) | NoIndex | BadSize | TooLarge | Truncated | NotUtf8(content: seq<byte>)

  // ----- header fields -----

  /** The bytes before the first NUL. */
  function UntilNul(field: seq<byte>): (r: seq<byte>)
    ensures r <= field && 0 !in r && (|r| < |field| ==> field[|r|] == 0)
  {
    if field == [] || field[0] == 0 then [] else [field[0]] + UntilNul(field[1..])
  }

  /** `tar_header_string` and `is_apkindex_entry`, on bytes: lossy decoding changes no ASCII byte. */
  predicate NamesIndex(field: seq<byte>) {
    var name := UntilNul(field);
    name != [] && FileName(name, SLASH, DOT) == Some(APKINDEX)
  }

  function TrimNulStart(s: seq<byte>): seq<byte> {
    if s != [] && s[0] == 0 then TrimNulStart(s[1..]) else s
  }

  function TrimNulEnd(s: seq<byte>): seq<byte> {
    if s != [] && s[|s| - 1] == 0 then TrimNulEnd(s[..|s| - 1]) else s
  }

  /** Length of the white-space character `s` starts with, in UTF-8; 0 if there is none. */
  function LeadingSpace(s: seq<byte>): (n: nat)
    ensures n <= |s|
  {
    if |s| >= 1 && (9 <= s[0] <= 13 || s[0] == 32) then 1
    else if |s| >= 2 && s[0] == 0xC2 && (s[1] == 0x85 || s[1] == 0xA0) then 2
    else if |s| >= 3 && IsWideSpace(s[0], s[1], s[2]) then 3
    else 0
  }

  /** Length of the white-space character `s` ends with. */
  function TrailingSpace(s: seq<byte>): (n: nat)
    ensures n <= |s|
  {
    var e := |s|;
    if e >= 1 && (9 <= s[e - 1] <= 13 || s[e - 1] == 32) then 1
    else if e >= 2 && s[e - 2] == 0xC2 && (s[e - 1] == 0x85 || s[e - 1] == 0xA0) then 2
    else if e >= 3 && IsWideSpace(s[e - 3], s[e - 2], s[e - 1]) then 3
    else 0
  }

  /** U+1680, U+2000 to U+200A, U+2028, U+2029, U+202F, U+205F and U+3000. */
  predicate IsWideSpace(a: byte, b: byte, c: byte) {
    || (a == 0xE1 && b == 0x9A && c == 0x80)
    || (a == 0xE2 && b == 0x80 && (0x80 <= c <= 0x8A || c == 0xA8 || c == 0xA9 || c == 0xAF))
    || (a == 0xE2 && b == 0x81 && c == 0x9F)
    || (a == 0xE3 && b == 0x80 && c == 0x80)
  }

  function TrimSpaceStart(s: seq<byte>): seq<byte>
    decreases |s|
  {
    if LeadingSpace(s) > 0 then TrimSpaceStart(s[LeadingSpace(s)..]) else s
  }

  function TrimSpaceEnd(s: seq<byte>): seq<byte>
    decreases |s|
  {
    if TrailingSpace(s) > 0 then TrimSpaceEnd(s[..|s| - TrailingSpace(s)]) else s
  }

  predicate IsOctal(s: seq<byte>) {
    forall i :: 0 <= i < |s| ==> 48 <= s[i] <= 55
  }

  /** Value of a run of octal digits, most significant first. */
  function OctalValue(s: seq<byte>): (n: nat)
    requires IsOctal(s)
  {
    if s == [] then 0 else OctalValue(s[..|s| - 1]) * 8 + (s[|s| - 1] as int - 48)
  }

  /** usize::from_str_radix(_, 8): an optional plus sign, then at least one octal digit, no overflow. */
  function ParseOctal(s: seq<byte>): Option<nat> {
    var digits := if |s| > 1 && s[0] == 43 then s[1..] else s;
    if digits == [] || !IsOctal(digits) || OctalValue(digits) >= USIZE_LIMIT then None
    else Some(OctalValue(digits))
  }

  /** `tar_header_size`. */
  function HeaderSize(field: seq<byte>): Option<nat> {
    ParseOctal(TrimSpaceEnd(TrimSpaceStart(TrimNulEnd(TrimNulStart(field)))))
  }

  // ----- the walk -----

  /** Size of a member's data on the archive: padded to whole blocks. */
  function Padded(size: nat): (r: nat)
    ensures size <= r < size + BLOCK && r % BLOCK == 0
  {
    (size + BLOCK - 1) / BLOCK * BLOCK
  }

  predicate AllZero(s: seq<byte>) {
    forall i :: 0 <= i < |s| ==> s[i] == 0
  }

  /** The walk from `offset`, given what counts as valid UTF-8. */
  function Walk(tar: seq<byte>, utf8: seq<byte> -> bool, offset: nat): Walked
    decreases |tar| - offset
  {
    if offset + BLOCK > |tar| then NoIndex else
    var header := tar[offset..offset + BLOCK];
    if AllZero(header) then NoIndex else
    var size := HeaderSize(header[124..136]);
    if size.None? then BadSize else
    var start := offset + BLOCK;
    if start + size.value >= USIZE_LIMIT then TooLarge else
    if start + size.value > |tar| then Truncated else
    if NamesIndex(header[0..100]) then
      var content := tar[start..start + size.value];
      if utf8(content) then Found(content) else NotUtf8(content)
    else Walk(tar, utf8, start + Padded(size.value))
  }

  /** `parse_apkindex_archive` after decompression: the loop over `offset`. Every index is in bounds, the
      offset stays a multiple of 512, and no sum leaves the usize range, whatever the bytes are. */
  method WalkArchive(tar: seq<byte>, utf8: seq<byte> -> bool) returns (result: Walked)
    requires |tar| <= ISIZE_MAX
    ensures result == Walk(tar, utf8, 0)
  {
    hide Padded, HeaderSize, NamesIndex;
    var offset := 0;
    while offset + BLOCK <= |tar|
      invariant 0 <= offset <= |tar| + BLOCK - 1 && offset % BLOCK == 0
      invariant offset + BLOCK < USIZE_LIMIT
      invariant Walk(tar, utf8, 0) == Walk(tar, utf8, offset)
      decreases |tar| - offset
    {
      var header := tar[offset..offset + BLOCK];
      if AllZero(header) {
        break;
      }
      var size := HeaderSize(header[124..136]);
      if size.None? {
        return BadSize;
      }
      var start := offset + BLOCK;
      if start + size.value >= USIZE_LIMIT {
        return TooLarge;
      }
      if start + size.value > |tar| {
        return Truncated;
      }
      if NamesIndex(header[0..100]) {
        var content := tar[start..start + size.value];
        return if utf8(content) then Found(content) else NotUtf8(content);
      }
      offset := start + Padded(size.value);
    }
    result := NoIndex;
  }

  // ----- writing members in the ustar layout -----

  function Power8(n: nat): nat {
    if n == 0 then 1 else 8 * Power8(n - 1)
  }

  /** `width` octal digits of n, leading zeros included. */
  function OctalDigits(n: nat, width: nat): (r: seq<byte>)
    ensures |r| == width
    ensures IsOctal(r)
  {
    if width == 0 then [] else OctalDigits(n / 8, width - 1) + [48 + n % 8]
  }

  /** One archive member: its header block, its data, and the padding up to the next block. */
  datatype Member = Member(header: seq<byte>, name: seq<byte>, data: seq<byte>, padding: seq<byte>)
  {
    /** Section "ustar Interchange Format" of pax in POSIX.1-2017, as far as the walker reads it: the name
        field, NUL-terminated unless it is full, and eleven octal digits of size ended by NUL or space. */
    ghost predicate Valid() {
      && |header| == BLOCK
      && 0 < |name| <= 100 && 0 !in name
      && name <= header[0..100] && (|name| < 100 ==> header[|name|] == 0)
      && |data| < Power8(11)
      && header[124..135] == OctalDigits(|data|, 11) && (header[135] == 0 || header[135] == 32)
      && |data| + |padding| == Padded(|data|)
    }

    function Bytes(): seq<byte> {
      header + data + padding
    }

    predicate IsIndex() {
      FileName(name, SLASH, DOT) == Some(APKINDEX)
    }
  }

  function Layout(members: seq<Member>): seq<byte> {
    if members == [] then [] else members[0].Bytes() + Layout(members[1..])
  }

  /** What the archive says: the data of the first member called APKINDEX. */
  function FirstIndex(members: seq<Member>, utf8: seq<byte> -> bool): Walked {
    if members == [] then NoIndex
    else if members[0].IsIndex() then
      if utf8(members[0].data) then Found(members[0].data) else NotUtf8(members[0].data)
    else FirstIndex(members[1..], utf8)
  }

  lemma {:induction false} OctalRoundTrip(n: nat, width: nat)
    requires n < Power8(width)
    ensures OctalValue(OctalDigits(n, width)) == n
  {
    if width > 0 {
      OctalRoundTrip(n / 8, width - 1);
      var d := OctalDigits(n, width);
      assert d[..|d| - 1] == OctalDigits(n / 8, width - 1);
    }
  }

  predicate AllOf(s: seq<byte>, b: byte) {
    forall i :: 0 <= i < |s| ==> s[i] == b
  }

  lemma {:induction false} NulsTrimmed(before: seq<byte>, s: seq<byte>, after: seq<byte>)
    requires AllOf(before, 0) && AllOf(after, 0) && s != [] && s[0] != 0 && s[|s| - 1] != 0
    ensures TrimNulEnd(TrimNulStart(before + s + after)) == s
    decreases |before| + |after|
  {
    var all := before + s + after;
    if before != [] {
      assert all[1..] == before[1..] + s + after;
      NulsTrimmed(before[1..], s, after);
    } else if after != [] {
      NulsTrimmed(before, s, after[..|after| - 1]);
      assert all[..|all| - 1] == before + s + after[..|after| - 1] == s + after[..|after| - 1];
      assert all[0] == s[0] && (s + after[..|after| - 1])[0] == s[0];
    } else {
      assert all == s;
    }
  }

  lemma {:induction false} BlanksBefore(before: seq<byte>, s: seq<byte>)
    requires AllOf(before, 32) && s != [] && 33 <= s[0] < 128
    ensures TrimSpaceStart(before + s) == s
  {
    if before == [] {
      assert before + s == s;
    } else {
      assert (before + s)[1..] == before[1..] + s;
      BlanksBefore(before[1..], s);
    }
  }

  lemma {:induction false} BlanksAfter(s: seq<byte>, after: seq<byte>)
    requires AllOf(after, 32) && s != [] && 48 <= s[|s| - 1] <= 55
    ensures TrimSpaceEnd(s + after) == s
  {
    if after == [] {
      assert s + after == s;
    } else {
      assert (s + after)[..|s + after| - 1] == s + after[..|after| - 1];
      BlanksAfter(s, after[..|after| - 1]);
    }
  }

  /** A size of any number of octal digits reads as its value if that fits, whatever stands around it: a plus sign,
      blanks around that and NULs around those. */
  lemma SizeReads(nulsBefore: seq<byte>, before: seq<byte>, sign: seq<byte>, digits: seq<byte>, after: seq<byte>,
                  nulsAfter: seq<byte>)
    requires AllOf(nulsBefore, 0) && AllOf(before, 32) && AllOf(after, 32) && AllOf(nulsAfter, 0)
    requires (sign == [] || sign == [43]) && digits != [] && IsOctal(digits)
    ensures HeaderSize(nulsBefore + (before + (sign + digits) + after) + nulsAfter) ==
            if OctalValue(digits) < USIZE_LIMIT then Some(OctalValue(digits)) else None
  {
    var number := sign + digits;
    var text := before + number + after;
    assert 48 <= digits[0] <= 55 && 48 <= digits[|digits| - 1] <= 55;
    assert text[0] != 0 && text[|text| - 1] != 0;
    NulsTrimmed(nulsBefore, text, nulsAfter);
    assert text == before + (number + after);
    BlanksBefore(before, number + after);
    BlanksAfter(number, after);
    hide TrimNulStart, TrimNulEnd, TrimSpaceStart, TrimSpaceEnd, OctalValue;
    assert sign == [] ==> number == digits;
    assert sign != [] ==> number[1..] == digits;
  }

  /** ASCII, but neither NUL, white space, a plus sign nor an octal digit. */
  predicate IsStray(b: byte) {
    b < 128 && b != 0 && !(9 <= b <= 13) && b != 32 && b != 43 && !(48 <= b <= 55)
  }

  /** One stray byte anywhere in the field and there is no size. */
  lemma StrayByteRefused(field: seq<byte>, b: byte)
    requires b in field && IsStray(b)
    ensures HeaderSize(field) == None
  {
    NulsKeepStray(field, b);
    NulsKeepStray(TrimNulStart(field), b);
    var text := TrimNulEnd(TrimNulStart(field));
    var i :| 0 <= i < |text| && text[i] == b;
    LeadingSpaceKeepsStray(text, i);
    var tail := TrimSpaceStart(text);
    var j :| 0 <= j < |tail| && tail[j] == b;
    TrailingSpaceKeepsStray(tail, j);
    var number := TrimSpaceEnd(TrimSpaceStart(text));
    hide TrimNulStart, TrimNulEnd, TrimSpaceStart, TrimSpaceEnd, OctalValue;
    assert |number| > 1 && number[0] == 43 ==> b in number[1..];
  }

  lemma {:induction false} NulsKeepStray(s: seq<byte>, b: byte)
    requires b in s && IsStray(b)
    ensures b in TrimNulStart(s) && b in TrimNulEnd(s)
  {
    if s[0] == 0 {
      NulsKeepStray(s[1..], b);
    }
    if s[|s| - 1] == 0 {
      NulsKeepStray(s[..|s| - 1], b);
    }
  }

  lemma NoStraySpace(s: seq<byte>)
    ensures forall i :: 0 <= i < LeadingSpace(s) ==> !IsStray(s[i])
    ensures forall i :: |s| - TrailingSpace(s) <= i < |s| ==> !IsStray(s[i])
  {
  }

  lemma {:induction false} LeadingSpaceKeepsStray(s: seq<byte>, i: nat)
    requires i < |s| && IsStray(s[i])
    ensures s[i] in TrimSpaceStart(s)
    decreases |s|
  {
    NoStraySpace(s);
    hide LeadingSpace, IsStray;
    var n := LeadingSpace(s);
    if n > 0 {
      assert i >= n && s[n..][i - n] == s[i];
      LeadingSpaceKeepsStray(s[n..], i - n);
    }
  }

  lemma {:induction false} TrailingSpaceKeepsStray(s: seq<byte>, i: nat)
    requires i < |s| && IsStray(s[i])
    ensures s[i] in TrimSpaceEnd(s)
    decreases |s|
  {
    NoStraySpace(s);
    hide TrailingSpace, IsStray;
    var n := TrailingSpace(s);
    if n > 0 {
      assert i < |s| - n && s[..|s| - n][i] == s[i];
      TrailingSpaceKeepsStray(s[..|s| - n], i);
    }
  }

  /** The size field reads back as the number it was written for. */
  lemma SizeRoundTrip(n: nat, end: byte)
    requires n < Power8(11) && (end == 0 || end == 32)
    ensures HeaderSize(OctalDigits(n, 11) + [end]) == Some(n)
  {
    hide OctalDigits, Power8, OctalValue, HeaderSize;
    var digits := OctalDigits(n, 11);
    OctalRoundTrip(n, 11);
    Power8At11();
    var blanks, nuls := if end == 32 then [end] else [], if end == 0 then [end] else [];
    assert [] + ([] + ([] + digits) + blanks) + nuls == digits + [end];
    SizeReads([], [], [], digits, blanks, nuls);
  }

  lemma Power8At11()
    ensures Power8(11) == 8589934592
  {
    assert Power8(3) == 512;
    assert Power8(6) == 512 * Power8(3);
    assert Power8(9) == 512 * Power8(6);
  }

  lemma {:induction false} NameReads(name: seq<byte>, field: seq<byte>)
    requires 0 !in name && name <= field && (|name| < |field| ==> field[|name|] == 0)
    ensures UntilNul(field) == name
  {
    if name != [] {
      assert field[0] == name[0] && name[0] in name;
      NameReads(name[1..], field[1..]);
    }
  }

  /** One member at `offset`: the walk takes its data or steps over it. */
  lemma WalkMember(front: seq<byte>, m: Member, back: seq<byte>, utf8: seq<byte> -> bool)
    requires m.Valid() && |front + m.Bytes() + back| < USIZE_LIMIT
    ensures Walk(front + m.Bytes() + back, utf8, |front|) ==
            if m.IsIndex() then (if utf8(m.data) then Found(m.data) else NotUtf8(m.data))
            else Walk(front + m.Bytes() + back, utf8, |front + m.Bytes()|)
  {
    hide HeaderSize, FileName, Padded, OctalDigits, UntilNul, AllZero, NamesIndex, Member.IsIndex;
    var tar := front + m.Bytes() + back;
    var offset := |front|;
    assert tar[offset..offset + BLOCK] == m.header;
    assert tar[offset + BLOCK..offset + BLOCK + |m.data|] == m.data;
    HeaderReads(m);
    assert |m.Bytes()| == BLOCK + Padded(|m.data|);
  }

  /** What the walker reads from a well-formed header. */
  lemma HeaderReads(m: Member)
    requires m.Valid()
    ensures !AllZero(m.header)
    ensures HeaderSize(m.header[124..136]) == Some(|m.data|)
    ensures NamesIndex(m.header[0..100]) <==> m.IsIndex()
  {
    hide HeaderSize, FileName, Padded, OctalDigits, Power8;
    assert m.header[124..136] == OctalDigits(|m.data|, 11) + [m.header[135]];
    SizeRoundTrip(|m.data|, m.header[135]);
    NameReads(m.name, m.header[0..100]);
    assert m.header[0] == m.name[0] && m.name[0] in m.name;
  }

  /** After members none of which is the index, the walk stands where they end. */
  lemma {:induction false} WalkLayout(front: seq<byte>, members: seq<Member>, rest: seq<byte>,
                                      utf8: seq<byte> -> bool)
    requires forall m :: m in members ==> m.Valid()
    requires |front + Layout(members) + rest| < USIZE_LIMIT
    ensures var tar := front + Layout(members) + rest;
            Walk(tar, utf8, |front|) ==
            if FirstIndex(members, utf8) != NoIndex then FirstIndex(members, utf8)
            else Walk(tar, utf8, |front + Layout(members)|)
    decreases |members|
  {
    hide Walk, HeaderSize, NamesIndex, FileName, Padded, Member.Bytes, Member.IsIndex, Member.Valid;
    var tar := front + Layout(members) + rest;
    if members == [] {
      assert front + Layout(members) == front;
    } else {
      var m, tail := members[0], Layout(members[1..]);
      assert tar == front + m.Bytes() + (tail + rest);
      WalkMember(front, m, tail + rest, utf8);
      assert tar == (front + m.Bytes()) + tail + rest;
      assert (front + m.Bytes()) + tail == front + Layout(members);
      WalkLayout(front + m.Bytes(), members[1..], rest, utf8);
    }
  }

  // ----- how an archive can end -----

  /** What follows the first `before` bytes: the archive's end, or damage. */
  ghost predicate EndsWith(before: nat, rest: seq<byte>, result: Walked) {
    if |rest| < BLOCK || AllZero(rest[..BLOCK]) then result == NoIndex
    else if HeaderSize(rest[124..136]).None? then result == BadSize
    else
      var end := BLOCK + HeaderSize(rest[124..136]).value;
      if before + end >= USIZE_LIMIT then result == TooLarge else end > |rest| && result == Truncated
  }

  /** On an archive of members that ends in any of these ways, the walk finds the first index; without one, it ends
      quietly at a zero block or when less than a block is left, and with an error at a header whose size does not
      parse, whose data goes past the end, or whose size is too large to add. */
  lemma ArchiveEnds(members: seq<Member>, rest: seq<byte>, result: Walked, utf8: seq<byte> -> bool)
    requires (forall m :: m in members ==> m.Valid()) && EndsWith(|Layout(members)|, rest, result)
    requires |Layout(members) + rest| <= ISIZE_MAX
    ensures Walk(Layout(members) + rest, utf8, 0) ==
            if FirstIndex(members, utf8) != NoIndex then FirstIndex(members, utf8) else result
  {
    var front := Layout(members);
    assert [] + front + rest == front + rest && [] + front == front;
    WalkLayout([], members, rest, utf8);
    hide Layout, FirstIndex, Member.Valid;
    WalkEnds(front, rest, result, utf8);
  }

  lemma WalkEnds(front: seq<byte>, rest: seq<byte>, result: Walked, utf8: seq<byte> -> bool)
    requires EndsWith(|front|, rest, result)
    ensures Walk(front + rest, utf8, |front|) == result
  {
    hide HeaderSize, NamesIndex, AllZero, Padded;
    if |rest| >= BLOCK {
      var header := (front + rest)[|front|..|front| + BLOCK];
      assert header == rest[..BLOCK] && header[124..136] == rest[124..136];
    }
  }

  /** Round trip: for any members followed by a zero block, the walk yields the first APKINDEX, or nothing. */
  lemma ArchiveRoundTrip(members: seq<Member>, zeros: seq<byte>, rest: seq<byte>, utf8: seq<byte> -> bool)
    requires forall m :: m in members ==> m.Valid()
    requires |zeros| == BLOCK && AllZero(zeros)
    requires |Layout(members) + zeros + rest| < USIZE_LIMIT
    ensures Walk(Layout(members) + zeros + rest, utf8, 0) == FirstIndex(members, utf8)
  {
    hide FirstIndex, Layout, Member.Valid;
    var tar := Layout(members) + zeros + rest;
    assert tar == [] + Layout(members) + (zeros + rest) && [] + Layout(members) == Layout(members);
    WalkLayout([], members, zeros + rest, utf8);
    assert tar[|Layout(members)|..|Layout(members)| + BLOCK] == zeros;
  }

  /** A name field is taken for the index exactly when its path ends in APKINDEX, give or take slashes and dots. */
  lemma IndexNamesRecognised(field: seq<byte>)
    ensures NamesIndex(field) <==> EndsIn(UntilNul(field), APKINDEX, SLASH, DOT)
  {
    FileNameExact(UntilNul(field), APKINDEX, SLASH, DOT);
    if dir, tail :| UntilNul(field) == dir + APKINDEX + tail && IsFront(dir, SLASH) && IsBack(tail, SLASH, DOT) {
      assert |UntilNul(field)| >= |APKINDEX|;
    }
  }
}
