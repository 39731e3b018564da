/** Snapshots before each transaction: zero-padded names, and pruning that keeps the newest. */
module Snapshots {
  import opened Common

  const PREFIX := "oil-"
  const WIDTH := 13

  // ----- names -----

  function Digits(n: nat): (r: string)
    ensures r != ""
  {
    if n < 10 then [Digit(n)] else Digits(n / 10) + [Digit(n % 10)]
  }

  function Digit(d: nat): char
    requires d < 10
  {
    '0' + d as char
  }

  function Zeros(n: nat): (r: string)
    ensures |r| == n
  {
    if n == 0 then "" else "0" + Zeros(n - 1)
  }

  /** {millis:013} */
  function Padded(n: nat): string {
    var d := Digits(n);
    if |d| < WIDTH then Zeros(WIDTH - |d|) + d else d
  }

  function Name(millis: nat, op: string): string {
    PREFIX + (Padded(millis) + ("-" + op))
  }

  // ----- the order of names -----

  /** Lexicographic order, the order of Vec::sort on paths of one directory. */
  predicate Less(a: string, b: string) {
    if b == "" then false
    else if a == "" then true
    else a[0] < b[0] || (a[0] == b[0] && Less(a[1..], b[1..]))
  }

  lemma {:induction false} LessTransitive(a: string, b: string, c: string)
    requires Less(a, b) && Less(b, c)
    ensures Less(a, c)
  {
    if a != "" && a[0] == b[0] && b[0] == c[0] {
      LessTransitive(a[1..], b[1..], c[1..]);
    }
  }

  lemma {:induction false} LessIrreflexive(a: string)
    ensures !Less(a, a)
  {
    if a != "" {
      LessIrreflexive(a[1..]);
    }
  }

  lemma {:induction false} LessTotal(a: string, b: string)
    ensures a == b || Less(a, b) || Less(b, a)
  {
    if a != "" && b != "" && a[0] == b[0] {
      LessTotal(a[1..], b[1..]);
      assert a == [a[0]] + a[1..] && b == [b[0]] + b[1..];
    }
  }

  lemma {:induction false} LessUnderPrefix(p: string, a: string, b: string)
    ensures Less(p + a, p + b) <==> Less(a, b)
  {
    if p == "" {
      assert p + a == a && p + b == b;
    } else {
      assert (p + a)[1..] == p[1..] + a && (p + b)[1..] == p[1..] + b;
      LessUnderPrefix(p[1..], a, b);
    }
  }

  function Power10(n: nat): (r: nat)
    ensures r >= 1
  {
    if n == 0 then 1 else 10 * Power10(n - 1)
  }

  /** Exactly `width` decimal digits. */
  function Fixed(n: nat, width: nat): (r: string)
    ensures |r| == width
  {
    if width == 0 then "" else Fixed(n / 10, width - 1) + [Digit(n % 10)]
  }

  /** Digits of one width compare like the numbers, whatever follows them. */
  lemma {:induction false} FixedOrder(a: nat, b: nat, width: nat, x: string, y: string)
    requires a < b < Power10(width)
    ensures Less(Fixed(a, width) + x, Fixed(b, width) + y)
  {
    var da, db := [Digit(a % 10)], [Digit(b % 10)];
    var pa, pb := Fixed(a / 10, width - 1), Fixed(b / 10, width - 1);
    assert Fixed(a, width) + x == pa + (da + x) && Fixed(b, width) + y == pb + (db + y);
    if a / 10 < b / 10 {
      FixedOrder(a / 10, b / 10, width - 1, da + x, db + y);
    } else {
      assert a % 10 < b % 10;
      LessUnderPrefix(pa, da + x, db + y);
    }
  }

  lemma {:induction false} ZerosSnoc(n: nat)
    ensures Zeros(n) + "0" == "0" + Zeros(n)
  {
    if n > 0 {
      ZerosSnoc(n - 1);
      assert Zeros(n) + "0" == "0" + (Zeros(n - 1) + "0");
    }
  }

  lemma {:induction false} FixedZero(width: nat)
    ensures Fixed(0, width) == Zeros(width)
  {
    if width > 0 {
      FixedZero(width - 1);
      ZerosSnoc(width - 1);
    }
  }

  /** Padding to a width gives that many digits of any number that fits. */
  lemma {:induction false} PaddedIsFixed(n: nat, width: nat)
    requires n < Power10(width) && width > 0
    ensures |Digits(n)| <= width && Zeros(width - |Digits(n)|) + Digits(n) == Fixed(n, width)
  {
    if n < 10 {
      FixedZero(width - 1);
    } else {
      PaddedIsFixed(n / 10, width - 1);
      var d := Digits(n / 10);
      assert Zeros(width - 1 - |d|) + (d + [Digit(n % 10)]) == Zeros(width - 1 - |d|) + d + [Digit(n % 10)];
    }
  }

  /** Number of digits in a name. */
  function Width(n: nat): (w: nat)
    ensures w >= WIDTH
  {
    if |Digits(n)| < WIDTH then WIDTH else |Digits(n)|
  }

  lemma {:induction false} FitsItsDigits(n: nat)
    ensures n < Power10(|Digits(n)|)
  {
    if n >= 10 {
      FitsItsDigits(n / 10);
    } else {
      assert Power10(1) == 10 * Power10(0);
    }
  }

  lemma {:induction false} Power10Grows(a: nat, b: nat)
    requires a <= b
    ensures Power10(a) <= Power10(b)
  {
    if a < b {
      Power10Grows(a, b - 1);
    }
  }

  lemma PaddedToWidth(n: nat)
    ensures n < Power10(Width(n)) && Padded(n) == Fixed(n, Width(n))
  {
    hide Power10, Fixed, Digits, Zeros;
    FitsItsDigits(n);
    Power10Grows(|Digits(n)|, Width(n));
    PaddedIsFixed(n, Width(n));
    assert "" + Digits(n) == Digits(n);
  }

  lemma {:induction false} DigitsGrow(a: nat, b: nat)
    requires a <= b
    ensures |Digits(a)| <= |Digits(b)|
  {
    if a >= 10 {
      DigitsGrow(a / 10, b / 10);
    }
  }

  lemma WidthGrows(a: nat, b: nat)
    requires a <= b
    ensures Width(a) <= Width(b)
  {
    DigitsGrow(a, b);
  }

  /** Fewer digits than thirteen is what fits below 10^13. */
  lemma {:induction false} FewDigits(n: nat, w: nat)
    requires n < Power10(w) && w > 0
    ensures |Digits(n)| <= w
  {
    if n >= 10 {
      FewDigits(n / 10, w - 1);
    }
  }

  lemma DivideTwice(b: nat, k: nat)
    requires k > 0
    ensures b / (10 * k) == (b / 10) / k
  {
    var q, r := b / 10, b % 10;
    var u, v := q / k, q % k;
    assert q == k * u + v;
    assert b == (10 * k) * u + (10 * v + r);
    QuotientIs(b, 10 * k, u, 10 * v + r);
  }

  lemma QuotientIs(b: nat, k: nat, u: nat, v: nat)
    requires k > 0 && v < k && b == k * u + v
    ensures b / k == u
  {
    var q := b / k;
    assert b == k * q + b % k;
    if q < u {
      MultiplyGrows(k, q + 1, u);
    } else if q > u {
      MultiplyGrows(k, u + 1, q);
    }
  }

  lemma MultiplyGrows(k: nat, a: nat, b: nat)
    requires a <= b
    ensures k * a <= k * b
  {
  }

  predicate AllDigits(s: string) {
    forall i :: 0 <= i < |s| ==> '0' <= s[i] <= '9'
  }

  /** A number without its last d digits. */
  function Leading(b: nat, d: nat): nat
    decreases d
  {
    if d == 0 then b else Leading(b / 10, d - 1)
  }

  lemma {:induction false} LeadingIsQuotient(b: nat, d: nat)
    ensures Leading(b, d) == b / Power10(d)
    decreases d
  {
    if d > 0 {
      LeadingIsQuotient(b / 10, d - 1);
      DivideTwice(b, Power10(d - 1));
    }
  }

  /** The first digits of a wider number. */
  lemma {:induction false} FixedSplits(b: nat, w: nat, d: nat) returns (tail: string)
    requires b < Power10(w + d)
    ensures Leading(b, d) < Power10(w)
    ensures Fixed(b, w + d) == Fixed(Leading(b, d), w) + tail && |tail| == d && AllDigits(tail)
    decreases d
  {
    if d == 0 {
      tail := "";
    } else {
      var front := FixedSplits(b / 10, w, d - 1);
      tail := front + [Digit(b % 10)];
    }
  }

  lemma LessAsymmetric(a: string, b: string)
    requires Less(a, b)
    ensures !Less(b, a)
  {
    LessIrreflexive(a);
    if Less(b, a) {
      LessTransitive(a, b, a);
    }
  }

  /** Digits of one width, then on one side a dash: on a tie the dash sorts before every digit. */
  lemma FrontOrder(a: nat, h: nat, w: nat, x: string, rest: string)
    requires a < Power10(w) && h < Power10(w) && rest != ""
    requires a == h ==> '-' < rest[0]
    ensures a <= h ==> Less(Fixed(a, w) + ("-" + x), Fixed(h, w) + rest)
    ensures a > h ==> Less(Fixed(h, w) + rest, Fixed(a, w) + ("-" + x))
  {
    hide Power10, Fixed;
    if a < h {
      FixedOrder(a, h, w, "-" + x, rest);
    } else if h < a {
      FixedOrder(h, a, w, rest, "-" + x);
    } else {
      LessUnderPrefix(Fixed(h, w), "-" + x, rest);
    }
  }

  /** Times of two widths compare by their common first digits. */
  lemma WidthsOrder(a: nat, b: nat, w: nat, d: nat, x: string, y: string)
    requires a < b && a < Power10(w) && b < Power10(w + d)
    ensures a <= Leading(b, d) ==> Less(Fixed(a, w) + ("-" + x), Fixed(b, w + d) + ("-" + y))
    ensures a > Leading(b, d) ==> Less(Fixed(b, w + d) + ("-" + y), Fixed(a, w) + ("-" + x))
  {
    hide Power10, Fixed, Less, Leading;
    var tail := FixedSplits(b, w, d);
    var h := Leading(b, d);
    var rest := tail + ("-" + y);
    assert Fixed(h, w) + tail + ("-" + y) == Fixed(h, w) + rest;
    if d == 0 {
      LeadingNone(b);
    }
    FrontOrder(a, h, w, x, rest);
  }

  /** Padded times compare by their common first digits. */
  lemma PaddedOrder(a: nat, b: nat, x: string, y: string)
    requires a < b
    ensures Width(a) <= Width(b)
    ensures var h := Leading(b, Width(b) - Width(a));
            var m, n := Padded(a) + ("-" + x), Padded(b) + ("-" + y);
            (a <= h ==> Less(m, n)) && (a > h ==> Less(n, m))
  {
    var w, d := WidthsOf(a, b);
    hide *;
    WidthsOrder(a, b, w, d, x, y);
  }

  lemma WidthsOf(a: nat, b: nat) returns (w: nat, d: nat)
    requires a < b
    ensures w == Width(a) && w + d == Width(b)
    ensures a < Power10(w) && Padded(a) == Fixed(a, w)
    ensures b < Power10(w + d) && Padded(b) == Fixed(b, w + d)
  {
    hide *;
    WidthGrows(a, b);
    PaddedToWidth(a);
    PaddedToWidth(b);
    w, d := Width(a), Width(b) - Width(a);
  }

  lemma LeadingNone(b: nat)
    ensures Leading(b, 0) == b
  {
  }

  /** Exactly when names sort as their times do, at any width: the earlier time is at most the first digits, as many
      as it has itself, of the later one. Otherwise they sort the other way round. */
  lemma NameOrderExact(a: nat, b: nat, p: string, q: string)
    requires a < b
    ensures Width(a) <= Width(b)
    ensures Less(Name(a, p), Name(b, q)) <==> a <= Leading(b, Width(b) - Width(a))
    ensures Less(Name(b, q), Name(a, p)) <==> a > Leading(b, Width(b) - Width(a))
  {
    hide Power10, Padded, Less, Width, Leading;
    PaddedOrder(a, b, p, q);
    var m, n := Padded(a) + ("-" + p), Padded(b) + ("-" + q);
    LessUnderPrefix(PREFIX, m, n);
    LessUnderPrefix(PREFIX, n, m);
    if Less(m, n) {
      LessAsymmetric(m, n);
    } else {
      LessAsymmetric(n, m);
    }
  }

  /** Two snapshots of one millisecond sort by operation, in whatever order they were taken. */
  lemma SameTimeOrder(a: nat, p: string, q: string)
    ensures Less(Name(a, p), Name(a, q)) <==> Less(p, q)
  {
    hide Padded, Less;
    LessUnderPrefix("-", p, q);
    LessUnderPrefix(Padded(a), "-" + p, "-" + q);
    LessUnderPrefix(PREFIX, Padded(a) + ("-" + p), Padded(a) + ("-" + q));
  }

  /** Below 10^13 milliseconds, names sort as their times do. */
  lemma NameOrder(a: nat, b: nat, p: string, q: string)
    requires a < Power10(WIDTH) && b < Power10(WIDTH) && a != b
    ensures Less(Name(a, p), Name(b, q)) <==> a < b
    ensures Name(a, p) != Name(b, q)
  {
    hide Power10, Name, Less;
    FewDigits(a, WIDTH);
    FewDigits(b, WIDTH);
    LessIrreflexive(Name(a, p));
    if a < b {
      NameOrderExact(a, b, p, q);
    } else {
      NameOrderExact(b, a, q, p);
    }
  }

  lemma {:induction false} DigitsOfPower(k: nat)
    ensures |Digits(Power10(k))| == k + 1
  {
    if k > 0 {
      DigitsOfPower(k - 1);
      assert Power10(k) / 10 == Power10(k - 1);
    }
  }

  /** The bound is sharp: the first time with fourteen digits sorts before the last one with thirteen. */
  lemma NameOrderBreaksAtBound(p: string, q: string)
    ensures Less(Name(Power10(WIDTH), p), Name(Power10(WIDTH) - 1, q))
  {
    WidthsAtBound();
    hide *;
    NameOrderExact(Power10(WIDTH) - 1, Power10(WIDTH), q, p);
  }

  lemma WidthsAtBound()
    ensures var a, b := Power10(WIDTH) - 1, Power10(WIDTH);
            Width(a) == WIDTH && Width(b) == WIDTH + 1 && a > Leading(b, 1)
  {
    hide Power10, Digits, Width, Leading;
    var a, b := Power10(WIDTH) - 1, Power10(WIDTH);
    DigitsOfPower(WIDTH);
    FewDigits(a, WIDTH);
    WidthFits(a);
    WidthFits(b);
    LeadingIsQuotient(b, 1);
    PowersAtBound();
  }

  lemma WidthFits(n: nat)
    ensures |Digits(n)| <= WIDTH ==> Width(n) == WIDTH
    ensures |Digits(n)| > WIDTH ==> Width(n) == |Digits(n)|
  {
    hide Digits;
  }

  lemma PowersAtBound()
    ensures Power10(1) == 10 && Power10(WIDTH) / 10 == Power10(WIDTH - 1) && Power10(WIDTH) == 10 * Power10(WIDTH - 1)
  {
    assert Power10(1) == 10 * Power10(0);
    var p := Power10(WIDTH - 1);
    hide Power10;
  }

  // ----- pruning -----

  predicate IsSnapshot(name: string) {
    PREFIX <= name
  }

  ghost function Owned(entries: set<string>): set<string> {
    set n | n in entries && IsSnapshot(n)
  }

  /** The snapshots a listing of the directory shows: none if it cannot be read, and only entries that can. */
  ghost function Seen(entries: set<string>, readable: bool, lists: string -> bool): set<string> {
    set n | n in entries && IsSnapshot(n) && readable && lists(n)
  }

  /** `low` is the set of the k smallest names. */
  ghost predicate IsLowest(low: set<string>, names: set<string>, k: nat) {
    low <= names && |low| == k && forall a, b :: a in low && b in names - low ==> Less(a, b)
  }

  function Excess(count: nat, keep: nat): nat {
    if count > keep then count - keep else 0
  }

  ghost predicate Ascending(s: seq<string>) {
    forall i, j :: 0 <= i < j < |s| ==> Less(s[i], s[j])
  }

  /** How one transaction may change the directory: a new name, and some of the lowest names gone. */
  ghost predicate Pruned(before: set<string>, after: set<string>, keep: nat,
                         readable: bool, lists: string -> bool, destroys: string -> bool)
  {
    var seen := Seen(before, readable, lists);
    exists low :: IsLowest(low, seen, Excess(|seen|, keep)) &&
                  after == before - (set n | n in low && destroys(n))
  }

  /** One transaction and all that the outside decides about it. */
  datatype Transaction = Transaction(
    millis: nat, op: string, creates: bool, readable: bool, lists: string -> bool, destroys: string -> bool)

  /** The snapshot is created: the command works and the name is new. */
  predicate Succeeds(before: set<string>, tx: Transaction) {
    tx.creates && Name(tx.millis, tx.op) !in before
  }

  /** What a transaction does to the directory: nothing, or a new name and a pruning. */
  ghost predicate Step(before: set<string>, tx: Transaction, keep: nat, after: set<string>) {
    var grown := before + {Name(tx.millis, tx.op)};
    if !Succeeds(before, tx) then after == before
    else Pruned(grown, after, keep, tx.readable, tx.lists, tx.destroys)
  }

  /** The .snapshots directory. */
  class SnapshotDir {
    var entries: set<string>

    constructor ()
      ensures entries == {}
    {
      entries := {};
    }

    /** Sorted names of the snapshots read from the directory, in whatever order it lists them. */
    method SortedSnapshots(lists: string -> bool) returns (snaps: seq<string>)
      ensures Ascending(snaps) && Elements(snaps) == Seen(entries, true, lists)
    {
      snaps := [];
      var unread := entries;
      while unread != {}
        invariant unread <= entries
        invariant Ascending(snaps) && Elements(snaps) == Seen(entries - unread, true, lists)
        decreases |unread|
      {
        var name :| name in unread;
        unread := unread - {name};
        if lists(name) && IsSnapshot(name) {
          ghost var were := snaps;
          snaps := Insert(snaps, name);
          assert Seen(entries - unread, true, lists) == Elements(were) + {name};
        } else {
          assert Seen(entries - unread, true, lists) == Elements(snaps);
        }
      }
      assert entries - unread == entries;
    }

    /** `imp::prune`. */
    method Prune(keep: nat, readable: bool, lists: string -> bool, destroys: string -> bool)
      modifies this
      ensures Pruned(old(entries), entries, keep, readable, lists, destroys)
    {
      if !readable {
        NothingSeen(entries, keep, lists, destroys);
        return;
      }
      var snaps := SortedSnapshots(lists);
      AscendingDistinct(snaps);
      DistinctSize(snaps);
      var excess := Excess(|snaps|, keep);
      LowestPrefix(snaps, excess);
      for k := 0 to excess
        invariant entries == old(entries) - (set n | n in Elements(snaps[..k]) && destroys(n))
      {
        assert Elements(snaps[..k + 1]) == Elements(snaps[..k]) + {snaps[k]};
        if destroys(snaps[k]) {
          entries := entries - {snaps[k]};
        }
      }
    }

    /** `imp::snapshot`: create the snapshot, then prune; a failed creation changes nothing. */
    method Snapshot(tx: Transaction, keep: nat) returns (ok: bool)
      modifies this
      ensures ok <==> Succeeds(old(entries), tx)
      ensures Step(old(entries), tx, keep, entries)
    {
      var name := Name(tx.millis, tx.op);
      if !tx.creates || name in entries {
        return false;
      }
      entries := entries + {name};
      Prune(keep, tx.readable, tx.lists, tx.destroys);
      ok := true;
    }
  }

  lemma NothingSeen(entries: set<string>, keep: nat, lists: string -> bool, destroys: string -> bool)
    ensures Pruned(entries, entries, keep, false, lists, destroys)
  {
    var seen, low: set<string> := Seen(entries, false, lists), {};
    assert seen == {};
    assert IsLowest(low, seen, Excess(|seen|, keep));
    assert entries == entries - (set n | n in low && destroys(n));
  }

  /** Insert into an ascending sequence. */
  method Insert(s: seq<string>, x: string) returns (r: seq<string>)
    requires Ascending(s)
    ensures Ascending(r) && Elements(r) == Elements(s) + {x}
  {
    hide Less;
    var i := 0;
    while i < |s| && Less(s[i], x)
      invariant 0 <= i <= |s| && forall j :: 0 <= j < i ==> Less(s[j], x)
    {
      i := i + 1;
    }
    if i < |s| && s[i] == x {
      assert x in s;
      return s;
    }
    r := s[..i] + [x] + s[i..];
    if i < |s| {
      LessTotal(s[i], x);
    }
    forall j | i < j < |s|
      ensures Less(x, s[j])
    {
      LessTransitive(x, s[i], s[j]);
    }
    assert s == s[..i] + s[i..];
  }

  lemma AscendingDistinct(s: seq<string>)
    requires Ascending(s)
    ensures Distinct(s)
  {
    forall i, j | 0 <= i < j < |s|
      ensures s[i] != s[j]
    {
      LessIrreflexive(s[i]);
    }
  }

  lemma LowestPrefix(s: seq<string>, k: nat)
    requires Ascending(s) && k <= |s|
    ensures IsLowest(Elements(s[..k]), Elements(s), k)
  {
    AscendingDistinct(s);
    DistinctSize(s[..k]);
    forall a, b | a in Elements(s[..k]) && b in Elements(s) - Elements(s[..k])
      ensures Less(a, b)
    {
      var i :| 0 <= i < k && s[i] == a;
      var j :| 0 <= j < |s| && s[j] == b;
      assert forall m :: 0 <= m < k ==> s[..k][m] == s[m];
    }
  }

  // ----- the greatest names -----

  ghost function Greater(names: set<string>, w: string): set<string> {
    set v | v in names && Less(w, v)
  }

  /** The `keep` greatest names, or all if there are no more. */
  ghost function Top(names: set<string>, keep: nat): set<string> {
    set w | w in names && |Greater(names, w)| < keep
  }

  lemma SubsetNotLarger<T>(a: set<T>, b: set<T>)
    requires a <= b
    ensures |a| <= |b|
    ensures |a| == |b| ==> a == b
  {
    assert b == a + (b - a);
  }

  lemma {:induction false} Least(names: set<string>) returns (m: string)
    requires names != {}
    ensures m in names && forall v :: v in names && v != m ==> Less(m, v)
    decreases |names|
  {
    var x :| x in names;
    m := x;
    if names != {x} {
      var y := Least(names - {x});
      LessTotal(x, y);
      m := if Less(x, y) then x else y;
      forall v | v in names && v != m
        ensures Less(m, v)
      {
        if m == x && v != y { LessTransitive(x, y, v); }
      }
    }
  }

  /** How many there are. */
  lemma {:induction false} TopSize(names: set<string>, keep: nat)
    ensures |Top(names, keep)| == |names| - Excess(|names|, keep)
    decreases |names|
  {
    hide Less;
    if names == {} {
      assert Top(names, keep) == {};
    } else {
      var m := Least(names);
      var rest := names - {m};
      TopSize(rest, keep);
      LessIrreflexive(m);
      assert Greater(names, m) == rest;
      forall w | w in rest
        ensures Greater(names, w) == Greater(rest, w)
      {
        LessAsymmetric(m, w);
      }
      assert Top(names, keep) == Top(rest, keep) + if |rest| < keep then {m} else {};
    }
  }

  /** Taking the lowest names away leaves exactly the greatest. */
  lemma LowestLeavesTop(names: set<string>, keep: nat, low: set<string>)
    requires IsLowest(low, names, Excess(|names|, keep))
    ensures names - low == Top(names, keep)
  {
    hide Less;
    var high := names - low;
    assert |names| == |low| + |high| by { assert names == low + high; }
    forall w | w in low
      ensures w !in Top(names, keep)
    {
      SubsetNotLarger({w}, low);
      SubsetNotLarger(high, Greater(names, w));
    }
    TopSize(names, keep);
    SubsetNotLarger(Top(names, keep), high);
  }

  /** Forgetting names below the greatest changes nothing about the greatest. */
  lemma TopOfSubset(names: set<string>, some: set<string>, keep: nat)
    requires Top(names, keep) <= some <= names
    ensures Top(some, keep) == Top(names, keep)
  {
    hide Less;
    forall w | w in Top(names, keep)
      ensures w in Top(some, keep)
    {
      SubsetNotLarger(Greater(some, w), Greater(names, w));
    }
    TopSize(names, keep);
    TopSize(some, keep);
    SubsetNotLarger(some, names);
    SubsetNotLarger(Top(names, keep), Top(some, keep));
  }

  lemma TopOfMore(names: set<string>, added: string, keep: nat)
    ensures Top(names + {added}, keep) <= Top(names, keep) + {added}
  {
    hide Less;
    forall w | w in Top(names + {added}, keep) && w != added
      ensures w in Top(names, keep)
    {
      SubsetNotLarger(Greater(names, w), Greater(names + {added}, w));
    }
  }

  // ----- retention over many transactions -----

  /** The pruning of a transaction sees everything and deletes all it wants to. */
  ghost predicate PrunesFully(tx: Transaction) {
    tx.readable && forall n :: tx.lists(n) && tx.destroys(n)
  }

  /** Directory contents over a run of transactions, each of which may fail in every way. */
  ghost predicate Trace(states: seq<set<string>>, txs: seq<Transaction>, keep: nat) {
    && |states| == |txs| + 1
    && forall i :: 0 <= i < |txs| ==> Step(states[i], txs[i], keep, states[i + 1])
  }

  /** Every snapshot there was at the start or that was created since. */
  ghost function Ever(states: seq<set<string>>, txs: seq<Transaction>): set<string>
    requires |states| == |txs| + 1
    decreases |txs|
  {
    if txs == [] then Owned(states[0]) else
    var n := |txs| - 1;
    Ever(states[..n + 1], txs[..n]) +
    if Succeeds(states[n], txs[n]) then {Name(txs[n].millis, txs[n].op)} else {}
  }

  /** The greatest of all names there ever were are there, and no other snapshots. */
  ghost predicate Retains(ever: set<string>, keep: nat, entries: set<string>) {
    Top(ever, keep) <= Owned(entries) <= ever
  }

  lemma OwnedGrows(entries: set<string>, millis: nat, op: string)
    ensures var grown := entries + {Name(millis, op)};
            Owned(grown) == Owned(entries) + {Name(millis, op)} &&
            (forall n :: n in grown && n !in Owned(grown) <==> n in entries && n !in Owned(entries))
  {
    assert IsSnapshot(Name(millis, op));
  }

  /** What pruning would delete is never among the greatest. */
  lemma LowestSparesTop(ever: set<string>, keep: nat, seen: set<string>, low: set<string>)
    requires seen <= ever && IsLowest(low, seen, Excess(|seen|, keep))
    ensures low !! Top(ever, keep)
  {
    hide Less;
    var high := seen - low;
    assert |seen| == |low| + |high| by { assert seen == low + high; }
    forall w | w in low
      ensures w !in Top(ever, keep)
    {
      SubsetNotLarger({w}, low);
      SubsetNotLarger(high, Greater(ever, w));
    }
  }

  /** A pruning, with entries unlisted and deletions failing, keeps the greatest names; when it works throughout,
      nothing else is left. */
  lemma PruneRetains(ever: set<string>, keep: nat, before: set<string>, after: set<string>, tx: Transaction)
    requires Retains(ever, keep, before) && Pruned(before, after, keep, tx.readable, tx.lists, tx.destroys)
    ensures Retains(ever, keep, after) && after - Owned(after) == before - Owned(before)
    ensures PrunesFully(tx) ==> Owned(after) == Top(ever, keep)
  {
    var seen := Seen(before, tx.readable, tx.lists);
    var low :| IsLowest(low, seen, Excess(|seen|, keep)) &&
               after == before - (set n | n in low && tx.destroys(n));
    var gone := set n | n in low && tx.destroys(n);
    LowestSparesTop(ever, keep, seen, low);
    hide Owned, Seen, Top, Less;
    assert after == before - gone;
    forall w | w in Top(ever, keep)
      ensures w in Owned(after)
    {
      assert w in Owned(before) && w !in low;
    }
    if PrunesFully(tx) {
      assert gone == low;
      FullPruneLeavesTop(ever, keep, seen, low);
    }
  }

  lemma FullPruneLeavesTop(ever: set<string>, keep: nat, seen: set<string>, low: set<string>)
    requires Top(ever, keep) <= seen <= ever && IsLowest(low, seen, Excess(|seen|, keep))
    ensures seen - low == Top(ever, keep)
  {
    hide Less;
    LowestLeavesTop(seen, keep, low);
    TopOfSubset(ever, seen, keep);
  }

  /** Whatever the clock does and whatever fails, the `keep` greatest names ever used survive, and files of others
      are left alone; after a transaction whose pruning works throughout, nothing but those names survives. */
  lemma {:induction false} GreatestSurvive(states: seq<set<string>>, txs: seq<Transaction>, keep: nat)
    requires Trace(states, txs, keep)
    ensures Retains(Ever(states, txs), keep, states[|txs|])
    ensures states[|txs|] - Owned(states[|txs|]) == states[0] - Owned(states[0])
    ensures txs != [] ==>
              var n := |txs| - 1;
              Succeeds(states[n], txs[n]) && PrunesFully(txs[n]) ==>
                Owned(states[|txs|]) == Top(Ever(states, txs), keep)
    decreases |txs|
  {
    hide Name, Owned, PrunesFully, Top, Less, Retains, Step, Succeeds;
    if txs == [] {
      StartRetains(states[0], keep);
    } else {
      var n := |txs| - 1;
      GreatestSurvive(states[..n + 1], txs[..n], keep);
      assert states[..n + 1][n] == states[n] && states[..n + 1][0] == states[0];
      StepRetains(Ever(states[..n + 1], txs[..n]), keep, states[n], txs[n], states[n + 1]);
    }
  }

  lemma StartRetains(entries: set<string>, keep: nat)
    ensures Retains(Owned(entries), keep, entries)
  {
  }

  /** One transaction: the invariant, for the names there are with it. */
  lemma StepRetains(ever: set<string>, keep: nat, before: set<string>, tx: Transaction, after: set<string>)
    requires Retains(ever, keep, before) && Step(before, tx, keep, after)
    ensures var grown := ever + if Succeeds(before, tx) then {Name(tx.millis, tx.op)} else {};
            && Retains(grown, keep, after)
            && (Succeeds(before, tx) && PrunesFully(tx) ==> Owned(after) == Top(grown, keep))
    ensures after - Owned(after) == before - Owned(before)
  {
    hide Name, IsSnapshot, PrunesFully, Top, Less, Pruned;
    if Succeeds(before, tx) {
      var name := Name(tx.millis, tx.op);
      OwnedGrows(before, tx.millis, tx.op);
      TopOfMore(ever, name, keep);
      PruneRetains(ever + {name}, keep, before + {name}, after, tx);
    } else {
      assert ever + {} == ever;
    }
  }

  /** How many there are afterwards, when the ioctls work: one more than before, but at most `keep`; a name that is
      taken is no snapshot, and nothing is pruned for it. */
  lemma SizeAfter(before: set<string>, tx: Transaction, keep: nat, after: set<string>)
    requires Step(before, tx, keep, after) && tx.creates && PrunesFully(tx)
    ensures if Name(tx.millis, tx.op) in before then after == before else
              |Owned(after)| == if |Owned(before)| < keep then |Owned(before)| + 1 else keep
  {
    var name := Name(tx.millis, tx.op);
    OwnedGrows(before, tx.millis, tx.op);
    if name !in before {
      var grown := before + {name};
      PruneRetains(Owned(grown), keep, grown, after, tx);
      TopSize(Owned(grown), keep);
    }
    hide Name, IsSnapshot, Less, Pruned;
  }

  /** A snapshot outlives its own transaction, when deletions work, exactly if fewer than `keep` of those there are
      have greater names; with the clock set back, the newest snapshot may be the first to go. */
  lemma NewSurvivesIff(before: set<string>, tx: Transaction, keep: nat, after: set<string>)
    requires Step(before, tx, keep, after) && Succeeds(before, tx) && PrunesFully(tx)
    ensures Name(tx.millis, tx.op) in after <==> |Greater(Owned(before), Name(tx.millis, tx.op))| < keep
  {
    hide Less, Name, IsSnapshot;
    var name := Name(tx.millis, tx.op);
    var names := Owned(before) + {name};
    OwnedGrows(before, tx.millis, tx.op);
    PruneRetains(names, keep, before + {name}, after, tx);
    LessIrreflexive(name);
    assert Greater(names, name) == Greater(Owned(before), name);
    assert name in after <==> name in Owned(after);
  }

  /** One snapshot is kept and the clock is set back behind it: the newest snapshot is the one that is pruned. */
  lemma ClockSetBack(earlier: nat, later: nat, p: string, tx: Transaction, after: set<string>)
    requires earlier == tx.millis < later < Power10(WIDTH) && tx.creates && PrunesFully(tx)
    requires Step({Name(later, p)}, tx, 1, after)
    ensures Succeeds({Name(later, p)}, tx) && Name(earlier, tx.op) !in after
  {
    NameOrder(earlier, later, tx.op, p);
    var kept, added := Name(later, p), Name(earlier, tx.op);
    assert IsSnapshot(kept);
    hide Name, Less, Power10, IsSnapshot, Step, Top;
    assert Greater(Owned({kept}), added) == {kept};
    NewSurvivesIff({kept}, tx, 1, after);
  }

  // ----- with a clock that only goes forward -----

  /** The successful creations of a run: times and operations. */
  type History = seq<(nat, string)>

  ghost function Successes(states: seq<set<string>>, txs: seq<Transaction>): History
    requires |states| == |txs| + 1
    decreases |txs|
  {
    if txs == [] then [] else
    var n := |txs| - 1;
    Successes(states[..n + 1], txs[..n]) +
    if Succeeds(states[n], txs[n]) then [(txs[n].millis, txs[n].op)] else []
  }

  ghost predicate Increasing(hist: History) {
    (forall i :: 0 <= i < |hist| ==> hist[i].0 < Power10(WIDTH)) &&
    forall i, j :: 0 <= i < j < |hist| ==> hist[i].0 < hist[j].0
  }

  function NameAt(hist: History, i: nat): string
    requires i < |hist|
  {
    Name(hist[i].0, hist[i].1)
  }

  ghost function NamesOf(hist: History): set<string> {
    set i | 0 <= i < |hist| :: NameAt(hist, i)
  }

  function Newest(hist: History, keep: nat): History {
    hist[Excess(|hist|, keep)..]
  }

  lemma NamesOfLast(hist: History, t: nat, op: string)
    ensures NamesOf(hist + [(t, op)]) == NamesOf(hist) + {Name(t, op)}
  {
    hide Name;
    var grown := hist + [(t, op)];
    assert forall i :: 0 <= i < |hist| ==> NameAt(grown, i) == NameAt(hist, i);
    assert NameAt(grown, |hist|) == Name(t, op);
  }

  lemma {:induction false} EverIsNamesOf(states: seq<set<string>>, txs: seq<Transaction>)
    requires |states| == |txs| + 1 && states[0] == {}
    ensures Ever(states, txs) == NamesOf(Successes(states, txs))
    decreases |txs|
  {
    hide Name;
    if txs != [] {
      var n := |txs| - 1;
      EverIsNamesOf(states[..n + 1], txs[..n]);
      assert states[..n + 1][0] == {};
      NamesOfLast(Successes(states[..n + 1], txs[..n]), txs[n].millis, txs[n].op);
      if !Succeeds(states[n], txs[n]) {
        assert Ever(states, txs) == Ever(states[..n + 1], txs[..n]);
        assert Successes(states, txs) == Successes(states[..n + 1], txs[..n]);
      }
    }
  }

  lemma NamesAscend(hist: History, i: nat, j: nat)
    requires Increasing(hist) && i < |hist| && j < |hist|
    ensures Less(NameAt(hist, i), NameAt(hist, j)) <==> i < j
    ensures NameAt(hist, i) == NameAt(hist, j) ==> i == j
  {
    hide Name, Less, Power10;
    if i == j {
      LessIrreflexive(NameAt(hist, i));
    } else {
      NameOrder(hist[i].0, hist[j].0, hist[i].1, hist[j].1);
    }
  }

  /** The names greater than one of a growing history are those after it. */
  lemma LaterIsGreater(hist: History, i: nat)
    requires Increasing(hist) && i < |hist|
    ensures |Greater(NamesOf(hist), NameAt(hist, i))| == |hist| - 1 - i
    decreases |hist| - i
  {
    hide Less, NameAt, Increasing;
    var w := NameAt(hist, i);
    var later := Greater(NamesOf(hist), w);
    if i + 1 == |hist| {
      forall v | v in later
        ensures false
      {
        var j :| 0 <= j < |hist| && v == NameAt(hist, j);
        NamesAscend(hist, i, j);
      }
      assert later == {};
    } else {
      LaterIsGreater(hist, i + 1);
      var next := NameAt(hist, i + 1);
      var rest := Greater(NamesOf(hist), next);
      forall j | 0 <= j < |hist|
        ensures NameAt(hist, j) in later <==> NameAt(hist, j) in rest + {next}
      {
        NamesAscend(hist, i, j);
        NamesAscend(hist, i + 1, j);
      }
      assert later == rest + {next};
      LessIrreflexive(next);
    }
  }

  /** With a growing history, the greatest names are the newest. */
  lemma TopIsNewest(hist: History, keep: nat)
    requires Increasing(hist)
    ensures Top(NamesOf(hist), keep) == NamesOf(Newest(hist, keep))
  {
    hide Less, Name, Increasing, Greater;
    var from := Excess(|hist|, keep);
    var newest := Newest(hist, keep);
    assert forall k :: 0 <= k < |newest| ==> NameAt(newest, k) == NameAt(hist, from + k);
    forall i | 0 <= i < |hist|
      ensures NameAt(hist, i) in Top(NamesOf(hist), keep) <==> i >= from
    {
      LaterIsGreater(hist, i);
    }
    forall w | w in Top(NamesOf(hist), keep)
      ensures w in NamesOf(newest)
    {
      var i :| 0 <= i < |hist| && w == NameAt(hist, i);
      assert w == NameAt(newest, i - from);
    }
  }

  /** From an empty directory with a strictly increasing clock, whatever creations, listings and deletions fail: the
      newest `keep` always survive, and are all that survives a transaction whose pruning works throughout. */
  lemma NewestSurvive(states: seq<set<string>>, txs: seq<Transaction>, keep: nat)
    requires Trace(states, txs, keep) && states[0] == {} && Increasing(Successes(states, txs))
    ensures var newest := NamesOf(Newest(Successes(states, txs), keep));
            && newest <= states[|txs|] <= NamesOf(Successes(states, txs))
            && (txs != [] ==>
                  var n := |txs| - 1;
                  Succeeds(states[n], txs[n]) && PrunesFully(txs[n]) ==>
                    states[|txs|] == newest)
  {
    hide Step, Top, NamesOf, Increasing, Succeeds, PrunesFully, Ever, Successes, Newest, IsSnapshot;
    GreatestSurvive(states, txs, keep);
    EverIsNamesOf(states, txs);
    assert states[0] - Owned(states[0]) == {};
    var end := states[|txs|];
    assert forall n :: n in end ==> n in Owned(end) || n in end - Owned(end);
    assert end == Owned(end);
    TopIsNewest(Successes(states, txs), keep);
  }

  /** Times and operations of the transactions themselves. */
  function Asked(txs: seq<Transaction>): (r: History)
    ensures |r| == |txs| && forall i :: 0 <= i < |txs| ==> r[i] == (txs[i].millis, txs[i].op)
  {
    seq(|txs|, i requires 0 <= i < |txs| => (txs[i].millis, txs[i].op))
  }

  /** With a clock that only goes forward, every creation succeeds whose command works: no name is taken. */
  lemma {:induction false} WorkingCreationsSucceed(states: seq<set<string>>, txs: seq<Transaction>, keep: nat)
    requires Trace(states, txs, keep) && states[0] == {} && Increasing(Asked(txs))
    requires forall i :: 0 <= i < |txs| ==> txs[i].creates
    ensures Successes(states, txs) == Asked(txs)
    decreases |txs|
  {
    hide Name, Step, Power10, NamesOf, Newest;
    if txs != [] {
      var n := |txs| - 1;
      var hist := Asked(txs[..n]);
      IncreasingPrefix(txs);
      assert Asked(txs) == hist + [(txs[n].millis, txs[n].op)];
      WorkingCreationsSucceed(states[..n + 1], txs[..n], keep);
      NewestSurvive(states[..n + 1], txs[..n], keep);
      assert states[..n + 1][n] == states[n];
      LaterNameIsNew(hist, txs[n].millis, txs[n].op);
    }
  }

  lemma {:induction false} IncreasingPrefix(txs: seq<Transaction>)
    requires txs != [] && Increasing(Asked(txs))
    ensures var n := |txs| - 1;
            Increasing(Asked(txs[..n])) && Increasing(Asked(txs[..n]) + [(txs[n].millis, txs[n].op)])
  {
    hide Power10;
    var n := |txs| - 1;
    var hist := Asked(txs[..n]);
    assert Asked(txs) == hist + [(txs[n].millis, txs[n].op)];
    assert forall i :: 0 <= i < |hist| ==> hist[i] == Asked(txs)[i];
  }

  lemma LaterNameIsNew(hist: History, t: nat, op: string)
    requires Increasing(hist + [(t, op)])
    ensures Name(t, op) !in NamesOf(hist)
  {
    hide Name, Power10;
    var grown := hist + [(t, op)];
    if i :| 0 <= i < |hist| && Name(t, op) == NameAt(hist, i) {
      assert grown[i] == hist[i] && grown[|hist|] == (t, op);
      NameOrder(hist[i].0, t, hist[i].1, op);
    }
  }

  /** From an empty directory with a strictly increasing clock, when all creations, listings and deletions work, the
      survivors after n transactions are exactly the last min(n, keep). */
  lemma LastSurvive(states: seq<set<string>>, txs: seq<Transaction>, keep: nat)
    requires Trace(states, txs, keep) && states[0] == {} && Increasing(Asked(txs))
    requires forall i :: 0 <= i < |txs| ==> txs[i].creates && PrunesFully(txs[i])
    ensures var n := |txs|;
            states[n] == LastOf(txs, n - if n < keep then n else keep)
  {
    hide Name, Step, NamesOf, Newest, Increasing, Asked, Successes, Succeeds, PrunesFully;
    LastNames(txs, keep);
    if txs == [] {
      assert LastOf(txs, 0) == {};
    } else {
      hide LastOf;
      PrefixSucceeds(states, txs, keep);
      WorkingCreationsSucceed(states, txs, keep);
      NewestSurvive(states, txs, keep);
    }
  }

  lemma PrefixSucceeds(states: seq<set<string>>, txs: seq<Transaction>, keep: nat)
    requires Trace(states, txs, keep) && states[0] == {} && Increasing(Asked(txs)) && txs != []
    requires forall i :: 0 <= i < |txs| ==> txs[i].creates
    ensures Succeeds(states[|txs| - 1], txs[|txs| - 1])
  {
    hide Name, Step, Power10, NamesOf, Newest;
    var n := |txs| - 1;
    IncreasingPrefix(txs);
    WorkingCreationsSucceed(states[..n + 1], txs[..n], keep);
    NewestSurvive(states[..n + 1], txs[..n], keep);
    LaterNameIsNew(Asked(txs[..n]), txs[n].millis, txs[n].op);
  }

  /** The names of the last transactions. */
  ghost function LastOf(txs: seq<Transaction>, from: nat): set<string> {
    set i | from <= i < |txs| :: Name(txs[i].millis, txs[i].op)
  }

  lemma LastNames(txs: seq<Transaction>, keep: nat)
    ensures NamesOf(Newest(Asked(txs), keep)) == LastOf(txs, Excess(|txs|, keep))
  {
    hide Name;
    var newest := Newest(Asked(txs), keep);
    var from := Excess(|txs|, keep);
    assert forall k :: 0 <= k < |newest| ==> NameAt(newest, k) == Name(txs[k + from].millis, txs[k + from].op);
    forall w | w in LastOf(txs, from)
      ensures w in NamesOf(newest)
    {
      var i :| from <= i < |txs| && w == Name(txs[i].millis, txs[i].op);
      assert w == NameAt(newest, i - from);
    }
  }
}
