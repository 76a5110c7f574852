/**
 The daily log files (`LogBook`): their names, and the rotation that keeps the
 newest of them.
 */
module Logbook {
  import opened Wrappers

  const MAX_DAYS := 14
  const MAX_SCAN := 64

  // ---------------------------------------------------------------------------
  // File names order as their dates

  /** The order of `String::operator >`: character by character. */
  predicate TextLess(a: string, b: string) {
    if b == [] then false
    else if a == [] then true
    else if a[0] != b[0] then a[0] < b[0]
    else TextLess(a[1..], b[1..])
  }

  lemma {:induction false} TextLessTotal(a: string, b: string)
    ensures TextLess(a, b) || TextLess(b, a) || a == b
    ensures TextLess(a, b) ==> !TextLess(b, a)
    ensures !TextLess(a, a)
  {
    if a != [] && b != [] {
      TextLessTotal(a[1..], b[1..]);
      assert a == [a[0]] + a[1..] && b == [b[0]] + b[1..];
    }
    if a != [] {
      TextLessTotal(a[1..], a[1..]);
    }
  }

  lemma {:induction false} TextLessTransitive(a: string, b: string, c: string)
    requires TextLess(a, b) && TextLess(b, c)
    ensures TextLess(a, c)
  {
    if a != [] && a[0] == b[0] == c[0] {
      TextLessTransitive(a[1..], b[1..], c[1..]);
    }
  }

  lemma {:induction false} LessPrefix(p: string, a: string, b: string)
    ensures TextLess(p + a, p + b) <==> TextLess(a, b)
  {
    if p == [] {
      assert p + a == a && p + b == b;
    } else {
      assert (p + a)[1..] == p[1..] + a && (p + b)[1..] == p[1..] + b;
      LessPrefix(p[1..], a, b);
    }
  }

  function Digit(n: nat): char
    requires n < 10
  {
    ('0' as int + n) as char
  }

  function Power(width: nat): nat {
    if width == 0 then 1 else 10 * Power(width - 1)
  }

  /** `%0*d` for a number that has no more digits than the width. */
  function Digits(n: nat, width: nat): (s: string)
    ensures |s| == width
  {
    if width == 0 then [] else Digits(n / 10, width - 1) + [Digit(n % 10)]
  }

  lemma {:induction false} DigitsOrder(m: nat, n: nat, width: nat, s: string, t: string)
    requires m < Power(width) && n < Power(width)
    ensures TextLess(Digits(m, width) + s, Digits(n, width) + t) <==> m < n || (m == n && TextLess(s, t))
  {
    if width == 0 {
      assert [] + s == s && [] + t == t;
    } else {
      var s', t' := [Digit(m % 10)] + s, [Digit(n % 10)] + t;
      assert Digits(m, width) + s == Digits(m / 10, width - 1) + s';
      assert Digits(n, width) + t == Digits(n / 10, width - 1) + t';
      DigitsOrder(m / 10, n / 10, width - 1, s', t');
      assert s'[1..] == s && t'[1..] == t;
    }
  }

  datatype Date = Date(year: nat, month: nat, day: nat) {
    predicate Valid() {
      year < 10000 && month < 100 && day < 100
    }

    predicate Before(d: Date) {
      year < d.year || (year == d.year && (month < d.month || (month == d.month && day < d.day)))
    }
  }

  /** The name of a day's file, in a directory prefix that the file system may or may not report. */
  function FileName(prefix: string, d: Date): string {
    prefix + ("log" + (Digits(d.year, 4) + (Digits(d.month, 2) + (Digits(d.day, 2) + ".txt"))))
  }

  /** A file's name. */
  datatype Name = Name(text: string)

  predicate Less(a: Name, b: Name) {
    TextLess(a.text, b.text)
  }

  lemma LessTotal(a: Name, b: Name)
    ensures Less(a, b) || Less(b, a) || a == b
    ensures Less(a, b) ==> !Less(b, a)
    ensures !Less(a, a)
  {
    TextLessTotal(a.text, b.text);
  }

  lemma LessTransitive(a: Name, b: Name, c: Name)
    requires Less(a, b) && Less(b, c)
    ensures Less(a, c)
  {
    TextLessTransitive(a.text, b.text, c.text);
  }

  /** Names order as the dates they are for. */
  lemma NamesOrderAsDates(prefix: string, a: Date, b: Date)
    requires a.Valid() && b.Valid()
    ensures Less(Name(FileName(prefix, a)), Name(FileName(prefix, b))) <==> a.Before(b)
  {
    hide TextLess, Digits;
    assert Power(2) == 100 && Power(4) == 10000 by {
      assert Power(2) == 10 * Power(1) && Power(4) == 10 * Power(3);
    }
    var ad, bd := Digits(a.day, 2) + ".txt", Digits(b.day, 2) + ".txt";
    var am, bm := Digits(a.month, 2) + ad, Digits(b.month, 2) + bd;
    var ay, by' := Digits(a.year, 4) + am, Digits(b.year, 4) + bm;
    LessPrefix(prefix, "log" + ay, "log" + by');
    LessPrefix("log", ay, by');
    DigitsOrder(a.year, b.year, 4, am, bm);
    DigitsOrder(a.month, b.month, 2, ad, bd);
    DigitsOrder(a.day, b.day, 2, ".txt", ".txt");
    TextLessTotal(".txt", ".txt");
  }

  // ---------------------------------------------------------------------------
  // The sort

  /** `x` behind the last element that is not greater. */
  function Insert(s: seq<Name>, x: Name): (r: seq<Name>)
    ensures |r| == |s| + 1
  {
    if s == [] || !Less(x, s[|s| - 1]) then s + [x] else Insert(s[..|s| - 1], x) + [s[|s| - 1]]
  }

  function Sorted(s: seq<Name>): (r: seq<Name>)
    ensures |r| == |s|
  {
    if s == [] then [] else Insert(Sorted(s[..|s| - 1]), s[|s| - 1])
  }

  ghost predicate Ascending(s: seq<Name>) {
    forall i, j :: 0 <= i < j < |s| ==> !Less(s[j], s[i])
  }

  lemma {:induction false} InsertKeeps(s: seq<Name>, x: Name)
    ensures multiset(Insert(s, x)) == multiset(s) + multiset{x}
    ensures forall y :: y in Insert(s, x) ==> y in s || y == x
  {
    if s != [] {
      var init, last := s[..|s| - 1], s[|s| - 1];
      assert s == init + [last];
      InsertKeeps(init, x);
    }
  }

  lemma {:induction false} InsertAscends(s: seq<Name>, x: Name)
    requires Ascending(s)
    ensures Ascending(Insert(s, x))
  {
    if s != [] {
      var init, last := s[..|s| - 1], s[|s| - 1];
      if Less(x, last) {
        InsertAscends(init, x);
        InsertKeeps(init, x);
        LessTotal(x, last);
        var r := Insert(init, x);
        forall i | 0 <= i < |r|
          ensures !Less(last, r[i])
        {
          assert r[i] in r;
        }
      } else {
        forall i | 0 <= i < |s|
          ensures !Less(x, s[i])
        {
          if Less(x, s[i]) {
            LessTotal(s[i], last);
            if s[i] != last {
              LessTransitive(x, s[i], last);
            }
          }
        }
      }
    }
  }

  /** The sort is an ordered permutation. */
  lemma {:induction false} SortedSorts(s: seq<Name>)
    ensures multiset(Sorted(s)) == multiset(s) && Ascending(Sorted(s))
  {
    if s != [] {
      var init, last := s[..|s| - 1], s[|s| - 1];
      assert s == init + [last];
      SortedSorts(init);
      InsertKeeps(Sorted(init), last);
      InsertAscends(Sorted(init), last);
    }
  }

  /** One turn of the outer loop: the element behind the sorted part is moved into its place. */
  method InsertKey(names: array<Name>, i: nat)
    requires i < names.Length
    modifies names
    ensures names[..i + 1] == Insert(old(names[..i]), old(names[i]))
    ensures names[i + 1..] == old(names[i + 1..])
  {
    hide Insert, Less;
    ghost var was := names[..];
    var key := names[i];
    var j := i - 1;
    while j >= 0 && Less(key, names[j])
      invariant -1 <= j < i
      invariant forall k :: 0 <= k <= j ==> names[k] == was[k]
      invariant forall k :: j + 2 <= k <= i ==> names[k] == was[k - 1]
      invariant forall k :: i < k < names.Length ==> names[k] == was[k]
      invariant forall k :: j < k < i ==> Less(key, was[k])
    {
      names[j + 1] := names[j];
      j := j - 1;
    }
    names[j + 1] := key;
    Placed(was, names[..], i, j + 1);
    assert was[..i] == old(names[..i]);
  }

  /** The elements from `p` on have moved up by one to make room for the last. */
  lemma Placed(was: seq<Name>, now: seq<Name>, i: nat, p: nat)
    requires p <= i < |was| == |now|
    requires forall k :: 0 <= k < p ==> now[k] == was[k]
    requires now[p] == was[i]
    requires forall k :: p < k <= i ==> now[k] == was[k - 1]
    requires forall k :: i < k < |was| ==> now[k] == was[k]
    requires (p > 0 ==> !Less(was[i], was[p - 1])) && forall k :: p <= k < i ==> Less(was[i], was[k])
    ensures now[..i + 1] == Insert(was[..i], was[i])
    ensures now[i + 1..] == was[i + 1..]
  {
    hide Insert, Less;
    var s := was[..i];
    InsertAt(s, was[i], p);
    assert now[..i + 1] == s[..p] + [was[i]] + s[p..];
  }

  lemma {:induction false} InsertAt(s: seq<Name>, x: Name, p: nat)
    requires p <= |s| && (p > 0 ==> !Less(x, s[p - 1])) && forall k :: p <= k < |s| ==> Less(x, s[k])
    ensures Insert(s, x) == s[..p] + [x] + s[p..]
  {
    hide Less;
    if p < |s| {
      var init := s[..|s| - 1];
      InsertAt(init, x, p);
      assert s[..p] == init[..p] && s[p..] == init[p..] + [s[|s| - 1]];
    }
  }

  lemma SortedShort(s: seq<Name>)
    ensures |s| == 0 ==> Sorted(s) == s
    ensures |s| >= 1 ==> Sorted(s[..1]) == s[..1]
  {
    if |s| >= 1 {
      assert s[..1][..0] == [];
    }
  }

  lemma SortedNext(s: seq<Name>, i: nat)
    requires i < |s|
    ensures Sorted(s[..i + 1]) == Insert(Sorted(s[..i]), s[i])
  {
    assert s[..i + 1][..i] == s[..i];
  }

  /** The insertion sort of `rotateLogFiles`, in place. */
  method Sort(names: array<Name>, nNames: nat)
    requires nNames <= names.Length
    modifies names
    ensures names[..nNames] == Sorted(old(names[..nNames]))
  {
    hide Sorted, Insert;
    ghost var was := names[..nNames];
    SortedShort(was);
    if nNames == 0 {
      return;
    }
    var i := 1;
    assert names[..1] == was[..1];
    while i < nNames
      invariant 1 <= i <= nNames && names[..i] == Sorted(was[..i])
      invariant forall k :: i <= k < nNames ==> names[k] == was[k]
    {
      SortedNext(was, i);
      ghost var rest := names[i + 1..];
      InsertKey(names, i);
      assert forall k :: i + 1 <= k < nNames ==> names[k] == names[i + 1..][k - i - 1] == rest[k - i - 1];
      i := i + 1;
    }
    assert was[..i] == was;
  }

  // ---------------------------------------------------------------------------
  // The rotation

  predicate Contains(s: string, t: string) {
    exists i :: 0 <= i <= |s| && t <= s[i..]
  }

  predicate EndsWith(s: string, t: string) {
    |t| <= |s| && s[|s| - |t|..] == t
  }

  /** The names the rotation looks at. */
  predicate IsLog(name: Name) {
    Contains(name.text, "log") && EndsWith(name.text, ".txt")
  }

  /** The first log files of a listing, as many as there is room for. */
  function Collected(listing: seq<Name>, room: nat): (r: seq<Name>)
    ensures |r| <= room
  {
    if listing == [] || room == 0 then []
    else if IsLog(listing[0]) then [listing[0]] + Collected(listing[1..], room - 1)
    else Collected(listing[1..], room)
  }

  /** The files the rotation deletes. */
  function Victims(listing: seq<Name>): seq<Name> {
    var names := Collected(listing, MAX_SCAN);
    if |names| <= MAX_DAYS then [] else Sorted(names)[..|names| - MAX_DAYS]
  }

  lemma CollectedNext(listing: seq<Name>, i: nat, room: nat)
    requires i < |listing| && room > 0
    ensures Collected(listing[i..], room) ==
      if IsLog(listing[i]) then [listing[i]] + Collected(listing[i + 1..], room - 1)
      else Collected(listing[i + 1..], room)
  {
    assert listing[i..][1..] == listing[i + 1..];
  }

  /** The directory walk. */
  method CollectLogs(listing: seq<Name>, names: array<Name>) returns (nNames: nat)
    requires names.Length == MAX_SCAN
    modifies names
    ensures nNames <= MAX_SCAN && names[..nNames] == Collected(listing, MAX_SCAN)
  {
    hide IsLog, Collected;
    nNames := 0;
    var i := 0;
    assert listing[0..] == listing;
    while i < |listing| && nNames < MAX_SCAN
      invariant 0 <= i <= |listing| && 0 <= nNames <= MAX_SCAN
      invariant Collected(listing, MAX_SCAN) == names[..nNames] + Collected(listing[i..], MAX_SCAN - nNames)
    {
      CollectedNext(listing, i, MAX_SCAN - nNames);
      if IsLog(listing[i]) {
        ghost var found := names[..nNames];
        names[nNames] := listing[i];
        nNames := nNames + 1;
        assert names[..nNames] == found + [listing[i]];
      }
      i := i + 1;
    }
    CollectedNone(listing[i..], MAX_SCAN - nNames);
  }

  lemma CollectedNone(listing: seq<Name>, room: nat)
    requires listing == [] || room == 0
    ensures Collected(listing, room) == []
  {
  }

  /** `rotateLogFiles`: the files it deletes, oldest first. */
  method RotateLogFiles(listing: seq<Name>) returns (removed: seq<Name>)
    ensures removed == Victims(listing)
  {
    hide IsLog, Sorted, Collected;
    var names := new Name[MAX_SCAN](_ => Name(""));
    var nNames := CollectLogs(listing, names);
    removed := [];
    if nNames <= MAX_DAYS {
      return;
    }
    Sort(names, nNames);
    ghost var sorted := names[..nNames];
    for k := 0 to nNames - MAX_DAYS
      invariant removed == sorted[..k]
    {
      removed := removed + [names[k]];
    }
  }

  function Elements(s: seq<Name>): set<Name> {
    set x | x in s
  }

  /** The log files of a directory. */
  function Logs(listing: seq<Name>): set<Name> {
    set x | x in listing && IsLog(x)
  }

  lemma {:induction false} DistinctCount(s: seq<Name>)
    requires Distinct(s)
    ensures |Elements(s)| == |s|
  {
    if s == [] {
      assert Elements(s) == {};
    } else {
      var init, last := s[..|s| - 1], s[|s| - 1];
      DistinctCount(init);
      assert s == init + [last];
      assert Elements(s) == Elements(init) + {last};
    }
  }

  /** The log files of a listing, in its order. */
  function Filter(listing: seq<Name>): seq<Name> {
    if listing == [] then []
    else if IsLog(listing[0]) then [listing[0]] + Filter(listing[1..])
    else Filter(listing[1..])
  }

  lemma {:induction false} CollectedPrefix(listing: seq<Name>, room: nat)
    ensures Collected(listing, room) <= Filter(listing)
    ensures |Collected(listing, room)| == if |Filter(listing)| <= room then |Filter(listing)| else room
  {
    hide IsLog;
    if listing != [] && room > 0 {
      CollectedPrefix(listing[1..], if IsLog(listing[0]) then room - 1 else room);
    }
  }

  lemma {:induction false} FilterMembers(listing: seq<Name>, x: Name)
    ensures x in Filter(listing) <==> x in listing && IsLog(x)
  {
    hide IsLog;
    if listing != [] {
      FilterMembers(listing[1..], x);
      assert listing == [listing[0]] + listing[1..];
    }
  }

  lemma {:induction false} FilterDistinct(listing: seq<Name>)
    requires Distinct(listing)
    ensures Distinct(Filter(listing))
  {
    hide IsLog;
    if listing != [] {
      var first, rest := listing[0], listing[1..];
      assert forall i :: 0 <= i < |rest| ==> rest[i] == listing[i + 1] != first;
      FilterDistinct(rest);
      FilterMembers(rest, first);
    }
  }

  lemma FilterLogs(listing: seq<Name>)
    requires Distinct(listing)
    ensures Distinct(Filter(listing)) && Elements(Filter(listing)) == Logs(listing)
  {
    hide IsLog, Filter;
    FilterDistinct(listing);
    forall x
      ensures x in Elements(Filter(listing)) <==> x in Logs(listing)
    {
      FilterMembers(listing, x);
    }
  }

  /** Log files are collected once each, and all of them are if there is room. */
  lemma CollectedLogs(listing: seq<Name>, room: nat)
    requires Distinct(listing)
    ensures var r := Collected(listing, room);
      && Distinct(r) && Elements(r) <= Logs(listing)
      && |r| == (if |Logs(listing)| <= room then |Logs(listing)| else room)
      && (|Logs(listing)| <= room ==> Elements(r) == Logs(listing))
  {
    hide IsLog, Logs, Filter, Collected;
    CollectedPrefix(listing, room);
    FilterLogs(listing);
    DistinctCount(Filter(listing));
    var r, all := Collected(listing, room), Filter(listing);
    assert r == all[..|r|];
  }

  lemma SortedDistinct(s: seq<Name>)
    requires Distinct(s)
    ensures Distinct(Sorted(s)) && Elements(Sorted(s)) == Elements(s)
    ensures forall i, j :: 0 <= i < j < |s| ==> Less(Sorted(s)[i], Sorted(s)[j])
  {
    hide Less, Sorted;
    SortedSorts(s);
    var r := Sorted(s);
    forall x
      ensures x in r <==> x in s
    {
      assert x in multiset(r) <==> x in multiset(s);
    }
    SamePermutationDistinct(s, r);
    forall i, j | 0 <= i < j < |s|
      ensures Less(r[i], r[j])
    {
      LessTotal(r[i], r[j]);
    }
  }

  lemma {:induction false} AtMostOnce(s: seq<Name>, x: Name)
    requires Distinct(s)
    ensures multiset(s)[x] <= 1
  {
    if s != [] {
      var init, last := s[..|s| - 1], s[|s| - 1];
      assert s == init + [last];
      AtMostOnce(init, x);
      if x == last {
        assert last !in init;
      }
    }
  }

  lemma SamePermutationDistinct(s: seq<Name>, r: seq<Name>)
    requires Distinct(s) && multiset(s) == multiset(r)
    ensures Distinct(r)
  {
    forall i, j | 0 <= i < j < |r|
      ensures r[i] != r[j]
    {
      AtMostOnce(s, r[i]);
      CountedTwice(r, i, j);
    }
  }

  lemma CountedTwice(r: seq<Name>, i: nat, j: nat)
    requires i < j < |r|
    ensures r[i] == r[j] ==> multiset(r)[r[i]] >= 2
  {
    assert r == r[..i] + [r[i]] + r[i + 1..j] + [r[j]] + r[j + 1..];
  }

  /** The files left after the rotation. */
  function Kept(listing: seq<Name>): set<Name> {
    Logs(listing) - Elements(Victims(listing))
  }

  /** What is deleted are log files, and as many as there are over 14 among the first 64. */
  lemma VictimsCount(listing: seq<Name>)
    requires Distinct(listing)
    ensures Elements(Victims(listing)) <= Logs(listing)
    ensures |Elements(Victims(listing))| == |Victims(listing)|
    ensures var n := |Logs(listing)|;
      |Victims(listing)| == if n <= MAX_DAYS then 0 else if n <= MAX_SCAN then n - MAX_DAYS else MAX_SCAN - MAX_DAYS
  {
    hide Less, Sorted, IsLog, Collected, Logs;
    var names := Collected(listing, MAX_SCAN);
    CollectedLogs(listing, MAX_SCAN);
    SortedDistinct(names);
    DistinctCount(Victims(listing));
    assert forall x :: x in Victims(listing) ==> x in Elements(Sorted(names));
  }

  lemma VictimsOldest(listing: seq<Name>, v: Name, k: Name)
    requires Distinct(listing) && |Logs(listing)| <= MAX_SCAN
    requires v in Victims(listing) && k in Kept(listing)
    ensures Less(v, k)
  {
    hide Less, Sorted, IsLog, Collected, Logs;
    var names := Collected(listing, MAX_SCAN);
    CollectedLogs(listing, MAX_SCAN);
    SortedDistinct(names);
    var sorted, victims := Sorted(names), Victims(listing);
    var i :| 0 <= i < |victims| && victims[i] == v;
    forall n | 0 <= n < |victims|
      ensures sorted[n] != k
    {
      assert victims[n] == sorted[n] && victims[n] in Elements(victims);
    }
    assert k in Elements(sorted);
    var j :| 0 <= j < |sorted| && sorted[j] == k;
  }

  /** With at most 64 log files, exactly the surplus over 14 is deleted, and every file deleted is older than every
      one kept. With more, 50 are deleted, so that 14 are left exactly when there were no more than 64. */
  lemma RotationKeepsNewest(listing: seq<Name>)
    requires Distinct(listing)
    ensures var n := |Logs(listing)|;
      && |Kept(listing)| == (if n <= 14 then n else if n <= 64 then 14 else n - 50)
      && (|Kept(listing)| <= 14 <==> n <= 64)
      && (n <= 64 ==> forall v, k :: v in Victims(listing) && k in Kept(listing) ==> Less(v, k))
  {
    hide Less, Logs, Victims;
    VictimsCount(listing);
    if |Logs(listing)| <= MAX_SCAN {
      forall v, k | v in Victims(listing) && k in Kept(listing)
        ensures Less(v, k)
      {
        VictimsOldest(listing, v, k);
      }
    }
  }

  // ---------------------------------------------------------------------------
  // Day after day

  const MAX_FILES := MAX_DAYS + 1 // the rotation runs before the new day's file is created

  function DayFile(prefix: string, d: Date): Name {
    Name(FileName(prefix, d))
  }

  /** The file system lists every file once, in whatever order. */
  ghost predicate Lists(listing: seq<Name>, files: set<Name>) {
    Distinct(listing) && Elements(listing) == files
  }

  /** The first record of a day makes its file, after a rotation. */
  function NextDay(files: set<Name>, listing: seq<Name>, file: Name): set<Name> {
    if file in files then files else files - Elements(Victims(listing)) + {file}
  }

  /** The directory after records on the given days, when each rotation saw the given listing. */
  function AfterDays(prefix: string, ds: seq<Date>, listings: seq<seq<Name>>): set<Name>
    requires |listings| == |ds|
  {
    if ds == [] then {}
    else
      var n := |ds| - 1;
      NextDay(AfterDays(prefix, ds[..n], listings[..n]), listings[n], DayFile(prefix, ds[n]))
  }

  /** The listings are of the directory as it was. */
  ghost predicate Listed(prefix: string, ds: seq<Date>, listings: seq<seq<Name>>)
    requires |listings| == |ds|
  {
    ds == [] ||
    var n := |ds| - 1;
    Listed(prefix, ds[..n], listings[..n]) && Lists(listings[n], AfterDays(prefix, ds[..n], listings[..n]))
  }

  ghost predicate Chronological(ds: seq<Date>) {
    && (forall i :: 0 <= i < |ds| ==> ds[i].Valid())
    && (forall i, j :: 0 <= i < j < |ds| ==> ds[i].Before(ds[j]))
  }

  /** The files of the last days. */
  function Recent(prefix: string, ds: seq<Date>): seq<Name> {
    var n := if |ds| < 15 then |ds| else 15;
    seq(n, i requires 0 <= i < n => DayFile(prefix, ds[|ds| - n + i]))
  }

  lemma RecentAscends(prefix: string, ds: seq<Date>)
    requires Chronological(ds)
    ensures Distinct(Recent(prefix, ds))
    ensures forall i, j :: 0 <= i < j < |Recent(prefix, ds)| ==> Less(Recent(prefix, ds)[i], Recent(prefix, ds)[j])
  {
    hide Less, FileName;
    var r := Recent(prefix, ds);
    forall i, j | 0 <= i < j < |r|
      ensures Less(r[i], r[j]) && r[i] != r[j]
    {
      var d, d' := ds[|ds| - |r| + i], ds[|ds| - |r| + j];
      assert r[i] == DayFile(prefix, d) && r[j] == DayFile(prefix, d');
      NamesOrderAsDates(prefix, d, d');
      LessTotal(r[i], r[j]);
    }
  }

  lemma DayFileIsLog(prefix: string, d: Date)
    ensures IsLog(DayFile(prefix, d))
  {
    hide Digits;
    var text := FileName(prefix, d);
    assert text[|prefix|..] == "log" + text[|prefix| + 3..];
    assert text[|text| - 4..] == ".txt";
  }

  /** A directory of at most 15 log files, in the order of their days, before and after one more day. */
  lemma OneMoreDay(files: seq<Name>, listing: seq<Name>, file: Name)
    requires Distinct(files) && |files| <= MAX_FILES && Lists(listing, Elements(files))
    requires forall i :: 0 <= i < |files| ==> IsLog(files[i]) && Less(files[i], file)
    requires forall i, j :: 0 <= i < j < |files| ==> Less(files[i], files[j])
    ensures NextDay(Elements(files), listing, file) ==
      Elements((if |files| < MAX_FILES then files else files[1..]) + [file])
  {
    hide Less, IsLog, Victims, Elements;
    var all := Elements(files);
    LogsListed(files, listing);
    DistinctCount(files);
    VictimsCount(listing);
    NotYetThere(files, file);
    ElementsAppend(files, file);
    if |files| < MAX_FILES {
      assert Elements(Victims(listing)) == {};
    } else {
      OldestGoes(files, listing);
      ElementsTail(files);
      ElementsAppend(files[1..], file);
    }
  }

  lemma LogsListed(files: seq<Name>, listing: seq<Name>)
    requires Elements(listing) == Elements(files) && forall i :: 0 <= i < |files| ==> IsLog(files[i])
    ensures Logs(listing) == Elements(files)
  {
    hide IsLog;
    forall x
      ensures x in listing <==> x in files
    {
      assert x in listing <==> x in Elements(listing);
    }
  }

  lemma NotYetThere(files: seq<Name>, file: Name)
    requires forall i :: 0 <= i < |files| ==> Less(files[i], file)
    ensures file !in Elements(files)
  {
    hide Less;
    LessTotal(file, file);
  }

  lemma ElementsAppend(s: seq<Name>, x: Name)
    ensures Elements(s + [x]) == Elements(s) + {x}
  {
  }

  lemma ElementsTail(s: seq<Name>)
    requires Distinct(s) && s != []
    ensures Elements(s[1..]) == Elements(s) - {s[0]}
  {
    assert s == [s[0]] + s[1..];
    assert forall i :: 0 <= i < |s[1..]| ==> s[1..][i] == s[i + 1] != s[0];
  }

  lemma OldestGoes(files: seq<Name>, listing: seq<Name>)
    requires |files| == MAX_FILES && Distinct(listing) && Logs(listing) == Elements(files)
    requires |Elements(files)| == |files|
    requires forall i, j :: 0 <= i < j < |files| ==> Less(files[i], files[j])
    ensures Elements(Victims(listing)) == {files[0]}
  {
    hide Less, Logs, Victims;
    VictimsCount(listing);
    var v := Victims(listing)[0];
    assert Victims(listing) == [v];
    assert v in Elements(Victims(listing));
    var i :| 0 <= i < |files| && files[i] == v;
    if i > 0 {
      if files[0] != v {
        assert files[0] in Kept(listing) by { assert files[0] in Elements(files); }
        VictimsOldest(listing, v, files[0]);
        LessTotal(files[0], v);
        assert false;
      }
    }
  }

  /** Day after day, the directory holds exactly the files of the newest 15 days: one more than the rotation keeps. */
  lemma {:induction false} NewestDaysKept(prefix: string, ds: seq<Date>, listings: seq<seq<Name>>)
    requires |listings| == |ds| && Chronological(ds) && Listed(prefix, ds, listings)
    ensures AfterDays(prefix, ds, listings) == Elements(Recent(prefix, ds))
  {
    hide NextDay, DayFile, Less, Lists;
    if ds == [] {
      assert Recent(prefix, ds) == [];
    } else {
      var n := |ds| - 1;
      NewestDaysKept(prefix, ds[..n], listings[..n]);
      RecentStep(prefix, ds, listings[n]);
    }
  }

  lemma RecentStep(prefix: string, ds: seq<Date>, listing: seq<Name>)
    requires ds != [] && Chronological(ds) && Lists(listing, Elements(Recent(prefix, ds[..|ds| - 1])))
    ensures var n := |ds| - 1;
      NextDay(Elements(Recent(prefix, ds[..n])), listing, DayFile(prefix, ds[n])) == Elements(Recent(prefix, ds))
  {
    hide NextDay, Less, FileName, IsLog, Lists;
    var n := |ds| - 1;
    var init := ds[..n];
    var files, file := Recent(prefix, init), DayFile(prefix, ds[n]);
    RecentAscends(prefix, init);
    forall i | 0 <= i < |files|
      ensures IsLog(files[i]) && Less(files[i], file)
    {
      var d := init[n - |files| + i];
      assert d == ds[n - |files| + i];
      DayFileIsLog(prefix, d);
      NamesOrderAsDates(prefix, d, ds[n]);
    }
    OneMoreDay(files, listing, file);
    assert (if |files| < MAX_FILES then files else files[1..]) + [file] == Recent(prefix, ds);
  }
}
