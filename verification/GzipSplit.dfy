/** Splitting an APK into its three gzip members under per-stream and total size limits. */
module GzipSplit {
  import opened Common

  const MAX_STREAM_COUNT := 3

  /** What a decoder yields from some position: some output, and then either the end or an error. */
  datatype Decoded = Decoded(output: seq<byte>, fails: bool)

  datatype Failure = TooManyRequested | InputTooLarge | MissingStreams(found: nat) | StreamTooLarge(index: nat)
                   | TotalTooLarge | DecodeError | Panic

  datatype Split = Ok(streams: seq<seq<byte>>) | Err(failure: Failure)

  /** Two bytes of gzip magic at position i. */
  predicate MagicAt(data: seq<byte>, i: int) {
    0 <= i && i + 1 < |data| && data[i] == 0x1f && data[i + 1] == 0x8b
  }

  /** `memchr(0x1f, &data[from..])`: the first occurrence, as a position in data. */
  method FindFirst(data: seq<byte>, from: nat) returns (r: Option<nat>)
    requires from <= |data|
    ensures r.Some? ==> from <= r.value < |data| && data[r.value] == 0x1f
    ensures forall i :: from <= i < (if r.Some? then r.value else |data|) ==> data[i] != 0x1f
  {
    var i := from;
    while i < |data|
      invariant from <= i <= |data|
      invariant forall j :: from <= j < i ==> data[j] != 0x1f
    {
      if data[i] == 0x1f {
        return Some(i);
      }
      i := i + 1;
    }
    r := None;
  }

  /** The magic positions below `n`, in order. */
  function MagicBelow(data: seq<byte>, n: nat): seq<nat> {
    if n == 0 then [] else
    var front := MagicBelow(data, n - 1);
    if MagicAt(data, n - 1) then front + [n - 1] else front
  }

  function AllMagic(data: seq<byte>): seq<nat> {
    MagicBelow(data, |data|)
  }

  lemma {:induction false} MagicMembers(data: seq<byte>, n: nat)
    ensures forall i: nat :: i in MagicBelow(data, n) <==> i < n && MagicAt(data, i)
    ensures forall j, k :: 0 <= j < k < |MagicBelow(data, n)| ==> MagicBelow(data, n)[j] < MagicBelow(data, n)[k]
  {
    if n > 0 {
      MagicMembers(data, n - 1);
      var front := MagicBelow(data, n - 1);
      assert forall k :: 0 <= k < |front| ==> front[k] in front;
    }
  }

  /** Raising the bound only appends, and appends nothing where there is no magic. */
  lemma {:induction false} MagicGrows(data: seq<byte>, m: nat, n: nat)
    requires m <= n
    ensures MagicBelow(data, m) <= MagicBelow(data, n)
    ensures (forall i :: m <= i < n ==> !MagicAt(data, i)) ==> MagicBelow(data, m) == MagicBelow(data, n)
    decreases n
  {
    if m < n {
      MagicGrows(data, m, n - 1);
    }
  }

  /** `find_gzip_stream_starts`: the first `count` magic positions, or all if there are fewer (and the first
      one even when none is asked for). The overlap error cannot occur, because positions only grow. */
  method FindStarts(data: seq<byte>, count: nat) returns (starts: seq<nat>)
    ensures starts <= AllMagic(data)
    ensures |starts| < count ==> starts == AllMagic(data)
    ensures count > 0 ==> |starts| <= count
  {
    starts := [];
    var lastPos, offset := 0, 0;
    while offset <= |data|
      invariant 0 <= offset <= |data| && lastPos <= offset
      invariant starts == MagicBelow(data, offset) && (|starts| < count || starts == [])
      decreases |data| - offset
    {
      var found := FindFirst(data, offset);
      if found.None? {
        MagicGrows(data, offset, |data|);
        return;
      }
      var i := found.value;
      MagicGrows(data, offset, i);
      MagicGrows(data, i + 1, |data|);
      if i + 1 < |data| && data[i + 1] == 0x8b {
        assert i >= lastPos;
        starts := starts + [i];
        lastPos := i;
        if |starts| >= count {
          return;
        }
      }
      offset := i + 1;
    }
  }

  /** `take(limit).read_to_end`: an error beyond the limit is never seen. */
  function ReadUpTo(d: Decoded, limit: nat): Option<seq<byte>> {
    if |d.output| >= limit then Some(d.output[..limit])
    else if d.fails then None
    else Some(d.output)
  }

  /** The output of the i-th member, decoded from its start to wherever it ends. */
  function Member(data: seq<byte>, decode: seq<byte> -> Decoded, i: nat): Decoded
    requires i < |AllMagic(data)|
  {
    MagicInRange(data, i);
    decode(data[AllMagic(data)[i]..])
  }

  lemma MagicInRange(data: seq<byte>, i: nat)
    requires i < |AllMagic(data)|
    ensures AllMagic(data)[i] < |data|
  {
    MagicMembers(data, |data|);
    assert AllMagic(data)[i] in AllMagic(data);
  }

  /** Total output of the first `n` members. */
  function TotalOutput(data: seq<byte>, decode: seq<byte> -> Decoded, n: nat): nat
    requires n <= |AllMagic(data)|
  {
    if n == 0 then 0 else TotalOutput(data, decode, n - 1) + |Member(data, decode, n - 1).output|
  }

  /** The i-th member decodes and respects the per-stream limit. */
  predicate MemberFits(data: seq<byte>, decode: seq<byte> -> Decoded, maxStream: nat, i: nat)
    requires i < |AllMagic(data)|
  {
    !Member(data, decode, i).fails && |Member(data, decode, i).output| <= maxStream
  }

  /** Exactly when a split succeeds. */
  predicate Splits(data: seq<byte>, decode: seq<byte> -> Decoded, count: nat, maxStream: nat, maxTotal: nat) {
    && count == 3 && |data| <= maxTotal && |AllMagic(data)| >= 3
    && (forall i :: 0 <= i < 3 ==> MemberFits(data, decode, maxStream, i))
    && TotalOutput(data, decode, 3) <= maxTotal
  }

  /** The first `n` members fit, each and in all. */
  ghost predicate FitUpTo(data: seq<byte>, decode: seq<byte> -> Decoded, maxStream: nat, maxTotal: nat, n: nat)
    requires n <= |AllMagic(data)|
  {
    (forall j :: 0 <= j < n ==> MemberFits(data, decode, maxStream, j)) && TotalOutput(data, decode, n) <= maxTotal
  }

  /** Why the split stops at the i-th member, the first that does not fit: more than a stream may have, if the rest of
      the total allows that much; else more than that rest; or an error within what is read. */
  ghost predicate StopsAt(data: seq<byte>, decode: seq<byte> -> Decoded, maxStream: nat, maxTotal: nat,
                          i: nat, failure: Failure)
  {
    && i < |AllMagic(data)| && FitUpTo(data, decode, maxStream, maxTotal, i)
    && var d, rest := Member(data, decode, i), maxTotal - TotalOutput(data, decode, i);
       match failure
       case StreamTooLarge(index) => index == i && maxStream <= rest && |d.output| > maxStream
       case TotalTooLarge => rest < maxStream && |d.output| > rest
       case DecodeError => d.fails && |d.output| <= maxStream && |d.output| <= rest
       case _ => false
  }

  /** `split_gzip_streams_with_limits`. */
  method SplitStreams(data: seq<byte>, decode: seq<byte> -> Decoded, count: nat, maxStream: nat, maxTotal: nat)
    returns (result: Split)
    ensures result.Ok? <==> Splits(data, decode, count, maxStream, maxTotal)
    ensures result.Ok? ==> |result.streams| == 3
    ensures result.Ok? ==> forall i :: 0 <= i < 3 ==> result.streams[i] == Member(data, decode, i).output
    ensures result == Err(TooManyRequested) <==> count > 3
    ensures result == Err(InputTooLarge) <==> count <= 3 && |data| > maxTotal
    ensures (result.Err? && result.failure.MissingStreams?) <==>
              count <= 3 && |data| <= maxTotal && |AllMagic(data)| < count
    ensures result.Err? && result.failure.MissingStreams? ==> result.failure.found == |AllMagic(data)|
    ensures result == Err(Panic) ==> count < 3 && FitUpTo(data, decode, maxStream, maxTotal, count)
    ensures result.Err? && result.failure != Panic && count <= 3 && count <= |AllMagic(data)| && |data| <= maxTotal ==>
              exists i :: 0 <= i < count && StopsAt(data, decode, maxStream, maxTotal, i, result.failure)
  {
    if count > MAX_STREAM_COUNT {
      return Err(TooManyRequested);
    }
    if |data| > maxTotal {
      return Err(InputTooLarge);
    }
    var starts := FindStarts(data, count);
    if |starts| < count {
      return Err(MissingStreams(|starts|));
    }
    var out, failure := DecodeMembers(data, decode, starts[..count], maxStream, maxTotal);
    if failure.Some? {
      return Err(failure.value);
    }
    if count < 3 {
      return Err(Panic);
    }
    result := Ok(out);
  }

  /** The loop over the members found. */
  method DecodeMembers(data: seq<byte>, decode: seq<byte> -> Decoded, starts: seq<nat>, maxStream: nat, maxTotal: nat)
    returns (out: seq<seq<byte>>, failure: Option<Failure>)
    requires starts <= AllMagic(data)
    ensures failure.None? <==> FitUpTo(data, decode, maxStream, maxTotal, |starts|)
    ensures failure.None? ==>
              |out| == |starts| && forall i :: 0 <= i < |out| ==> out[i] == Member(data, decode, i).output
    ensures failure.Some? ==>
              exists i :: 0 <= i < |starts| && StopsAt(data, decode, maxStream, maxTotal, i, failure.value)
  {
    hide MagicBelow, StopsAt;
    out, failure := [], None;
    var total := 0;
    for i := 0 to |starts|
      invariant |out| == i && total == TotalOutput(data, decode, i)
      invariant FitUpTo(data, decode, maxStream, maxTotal, i)
      invariant forall j :: 0 <= j < i ==> out[j] == Member(data, decode, j).output
    {
      MagicInRange(data, i);
      assert starts[i] == AllMagic(data)[i];
      var remaining: nat := maxTotal - total;
      var allowed := if maxStream < remaining then maxStream else remaining;
      var buf := ReadUpTo(decode(data[starts[i]..]), allowed + 1);
      MemberStops(data, decode, maxStream, maxTotal, i);
      StopsEarly(data, decode, maxStream, maxTotal, i, |starts|);
      if buf.None? {
        return out, Some(DecodeError);
      }
      if |buf.value| > maxStream {
        return out, Some(StreamTooLarge(i));
      }
      if |buf.value| > remaining {
        return out, Some(TotalTooLarge);
      }
      total := total + |buf.value|;
      out := out + [buf.value];
    }
  }

  /** What the limited read of the i-th member shows. */
  lemma MemberStops(data: seq<byte>, decode: seq<byte> -> Decoded, maxStream: nat, maxTotal: nat, i: nat)
    requires i < |AllMagic(data)| && FitUpTo(data, decode, maxStream, maxTotal, i)
    ensures var d, rest := Member(data, decode, i), maxTotal - TotalOutput(data, decode, i);
            var buf := ReadUpTo(d, (if maxStream < rest then maxStream else rest) + 1);
            && (buf.None? ==> StopsAt(data, decode, maxStream, maxTotal, i, DecodeError))
            && (buf.Some? && |buf.value| > maxStream ==>
                  StopsAt(data, decode, maxStream, maxTotal, i, StreamTooLarge(i)))
            && (buf.Some? && rest < |buf.value| <= maxStream ==>
                  StopsAt(data, decode, maxStream, maxTotal, i, TotalTooLarge))
            && (buf.Some? && |buf.value| <= maxStream && |buf.value| <= rest ==>
                  buf.value == d.output && FitUpTo(data, decode, maxStream, maxTotal, i + 1))
  {
    hide MagicBelow;
  }

  /** A run that stops does not fit. */
  lemma StopsEarly(data: seq<byte>, decode: seq<byte> -> Decoded, maxStream: nat, maxTotal: nat, i: nat, n: nat)
    requires i < n <= |AllMagic(data)|
    ensures forall f :: StopsAt(data, decode, maxStream, maxTotal, i, f) ==>
              !FitUpTo(data, decode, maxStream, maxTotal, n)
  {
    hide MagicBelow;
    TotalGrows(data, decode, i + 1, n);
    assert TotalOutput(data, decode, i + 1) == TotalOutput(data, decode, i) + |Member(data, decode, i).output|;
    forall f | StopsAt(data, decode, maxStream, maxTotal, i, f)
      ensures !FitUpTo(data, decode, maxStream, maxTotal, n)
    {
      assert f.TotalTooLarge? || !MemberFits(data, decode, maxStream, i);
    }
  }

  lemma {:induction false} TotalGrows(data: seq<byte>, decode: seq<byte> -> Decoded, m: nat, n: nat)
    requires m <= n <= |AllMagic(data)|
    ensures TotalOutput(data, decode, m) <= TotalOutput(data, decode, n)
    decreases n
  {
    if m < n {
      TotalGrows(data, decode, m, n - 1);
    }
  }

  // ----- where members really start -----

  /** A gzip member starts with the magic pair. */
  predicate IsMember(m: seq<byte>) {
    MagicAt(m, 0)
  }

  /** The compressed bytes happen to contain the magic pair again. */
  predicate HasInteriorMagic(m: seq<byte>) {
    exists i :: 0 < i < |m| && MagicAt(m, i)
  }

  /** The three starts found are the true member offsets exactly when neither of the first two members contains
      the magic pair in its interior; the third may. */
  lemma StartsAreMembersIff(a: seq<byte>, b: seq<byte>, c: seq<byte>)
    requires IsMember(a) && IsMember(b) && IsMember(c)
    ensures var found := AllMagic(a + b + c);
            (|found| >= 3 && found[..3] == [0, |a|, |a| + |b|]) <==> !HasInteriorMagic(a) && !HasInteriorMagic(b)
  {
    if !HasInteriorMagic(a) && !HasInteriorMagic(b) {
      NoInteriorStarts(a, b, c);
    }
    var found := AllMagic(a + b + c);
    if |found| >= 3 && found[..3] == [0, |a|, |a| + |b|] {
      StartsNoInterior(a, b, c);
    }
  }

  lemma NoInteriorStarts(a: seq<byte>, b: seq<byte>, c: seq<byte>)
    requires IsMember(a) && IsMember(b) && IsMember(c)
    requires !HasInteriorMagic(a) && !HasInteriorMagic(b)
    ensures [0, |a|, |a| + |b|] <= AllMagic(a + b + c)
  {
    var data := a + b + c;
    MembersMagic(a, b, c);
    MagicGrows(data, 1, |a|);
    MagicGrows(data, |a| + 1, |a| + |b|);
    MagicGrows(data, |a| + |b| + 1, |data|);
    assert MagicBelow(data, 0) == [] && MagicBelow(data, 1) == [0];
    hide MagicAt;
    assert MagicBelow(data, |a| + 1) == [0, |a|];
    assert MagicBelow(data, |a| + |b| + 1) == [0, |a|, |a| + |b|];
  }

  lemma StartsNoInterior(a: seq<byte>, b: seq<byte>, c: seq<byte>)
    requires IsMember(a) && IsMember(b) && IsMember(c)
    requires [0, |a|, |a| + |b|] <= AllMagic(a + b + c)
    ensures !HasInteriorMagic(a) && !HasInteriorMagic(b)
  {
    var data := a + b + c;
    MembersMagic(a, b, c);
    forall i | 0 < i < |a|
      ensures !MagicAt(a, i)
    {
      BetweenStarts(data, |a|, |a| + |b|, i);
    }
    forall i | 0 < i < |b|
      ensures !MagicAt(b, i)
    {
      BetweenStarts(data, |a|, |a| + |b|, |a| + i);
    }
  }

  /** No magic lies between consecutive starts. */
  lemma BetweenStarts(data: seq<byte>, x: nat, y: nat, i: nat)
    requires [0, x, y] <= AllMagic(data) && 0 < i < y && i != x
    ensures !MagicAt(data, i)
  {
    var found := AllMagic(data);
    MagicMembers(data, |data|);
    assert found[0] == [0, x, y][0] && found[1] == [0, x, y][1] && found[2] == [0, x, y][2];
    assert forall k :: 2 < k < |found| ==> found[2] < found[k];
    assert i !in found;
  }

  /** Magic positions of the archive are those of its members: none straddles a boundary. */
  lemma MembersMagic(a: seq<byte>, b: seq<byte>, c: seq<byte>)
    requires IsMember(a) && IsMember(b) && IsMember(c)
    ensures var data := a + b + c;
            && (forall i :: 0 <= i < |a| ==> (MagicAt(data, i) <==> MagicAt(a, i)))
            && (forall i :: 0 <= i < |b| ==> (MagicAt(data, |a| + i) <==> MagicAt(b, i)))
            && (forall i :: |a| <= i < |a| + |b| ==> (MagicAt(data, i) <==> MagicAt(b, i - |a|)))
            && MagicAt(data, |a| + |b|)
  {
    var data := a + b + c;
    assert data[|a|] == b[0] && data[|a| + |b|] == c[0] && data[|a| + |b| + 1] == c[1];
  }

  /** An APK of three members without interior magic in the first two splits into exactly what the members decode
      to, when the limits allow it. The decoder is asked at each member's start and stops at that member's end. */
  lemma ThreeMembersSplit(a: seq<byte>, b: seq<byte>, c: seq<byte>, decode: seq<byte> -> Decoded,
                          x: seq<byte>, y: seq<byte>, z: seq<byte>, maxStream: nat, maxTotal: nat)
    requires IsMember(a) && IsMember(b) && IsMember(c)
    requires !HasInteriorMagic(a) && !HasInteriorMagic(b)
    requires decode(a + b + c) == Decoded(x, false)
    requires decode(b + c) == Decoded(y, false) && decode(c) == Decoded(z, false)
    ensures |AllMagic(a + b + c)| >= 3
    ensures Member(a + b + c, decode, 0).output == x && Member(a + b + c, decode, 1).output == y
    ensures Member(a + b + c, decode, 2).output == z
    ensures Splits(a + b + c, decode, 3, maxStream, maxTotal) <==>
            |a| + |b| + |c| <= maxTotal && |x| <= maxStream && |y| <= maxStream && |z| <= maxStream &&
            |x| + |y| + |z| <= maxTotal
  {
    var data := a + b + c;
    NoInteriorStarts(a, b, c);
    var found := AllMagic(data);
    assert found[0] == [0, |a|, |a| + |b|][0] && found[1] == [0, |a|, |a| + |b|][1];
    assert found[2] == [0, |a|, |a| + |b|][2];
    assert data[0..] == data && data[|a|..] == b + c && data[|a| + |b|..] == c;
    hide AllMagic;
    assert TotalOutput(data, decode, 1) == |x|;
    assert TotalOutput(data, decode, 2) == |x| + |y|;
    assert TotalOutput(data, decode, 3) == |x| + |y| + |z|;
    assert MemberFits(data, decode, maxStream, 0) <==> |x| <= maxStream;
    assert MemberFits(data, decode, maxStream, 1) <==> |y| <= maxStream;
    assert MemberFits(data, decode, maxStream, 2) <==> |z| <= maxStream;
  }
}
