/** Page file names, and finding a journal's pages by them. */
module Names {

  import opened Layout

  // ---------- StringUtils::split and join ----------

  // The position of the first d in s from `start` on, |s| if there is none.
  function Find(s: string, d: char, start: nat): (r: nat)
    requires start <= |s|
    ensures start <= r <= |s| && (r < |s| ==> s[r] == d)
    ensures forall i :: start <= i < r ==> s[i] != d
    decreases |s| - start
  {
    if start == |s| || s[start] == d then start else Find(s, d, start + 1)
  }

  // The pieces of s from `start` on between occurrences of d.
  function Pieces(s: string, d: char, start: nat): (r: seq<string>)
    requires start <= |s|
    ensures |r| > 0
    decreases |s| - start
  {
    var end := Find(s, d, start);
    [s[start..end]] + if end == |s| then [] else Pieces(s, d, end + 1)
  }

  function Joined(parts: seq<string>, separator: string): string {
    if parts == [] then ""
    else if |parts| == 1 then parts[0]
    else parts[0] + separator + Joined(parts[1..], separator)
  }

  method Split(s: string, d: char) returns (result: seq<string>)
    ensures result == Pieces(s, d, 0)
  {
    hide Pieces;
    result := [];
    var start := 0;
    var end := Find(s, d, 0);
    while end != |s|
      invariant 0 <= start <= end <= |s| && end == Find(s, d, start)
      invariant result + Pieces(s, d, start) == Pieces(s, d, 0)
      decreases |s| - start
    {
      PieceStep(s, d, start);
      Associate(result, [s[start..end]], Pieces(s, d, end + 1));
      result := result + [s[start..end]];
      start := end + 1;
      end := Find(s, d, start);
    }
    PieceStep(s, d, start);
    assert s[start..end] == s[start..];
    result := result + [s[start..]];
  }

  lemma PieceStep(s: string, d: char, start: nat)
    requires start <= |s|
    ensures var end := Find(s, d, start);
            Pieces(s, d, start) == [s[start..end]] + if end == |s| then [] else Pieces(s, d, end + 1)
  {
  }

  lemma Associate<T>(a: seq<T>, b: seq<T>, c: seq<T>)
    ensures a + (b + c) == (a + b) + c
  {
  }

  method Join(parts: seq<string>, separator: string) returns (result: string)
    ensures result == Joined(parts, separator)
  {
    if |parts| == 0 {
      return "";
    }
    hide Joined;
    result := parts[0];
    JoinedStart(parts, separator);
    var i := 1;
    while i < |parts|
      invariant 1 <= i <= |parts|
      invariant result + After(parts, separator, i) == Joined(parts, separator)
    {
      AfterStep(parts, separator, i);
      Associate(result, separator + parts[i], After(parts, separator, i + 1));
      Associate(result, separator, parts[i]);
      result := result + separator;
      result := result + parts[i];
      i := i + 1;
    }
  }

  lemma JoinedStart(parts: seq<string>, separator: string)
    requires parts != []
    ensures Joined(parts, separator) == parts[0] + After(parts, separator, 1)
  {
    if |parts| > 1 {
      Associate(parts[0], separator, Joined(parts[1..], separator));
    }
  }

  // What joining appends for the parts from i on.
  function After(parts: seq<string>, separator: string, i: nat): string
    requires 1 <= i <= |parts|
  {
    if i == |parts| then "" else separator + Joined(parts[i..], separator)
  }

  lemma AfterStep(parts: seq<string>, separator: string, i: nat)
    requires 1 <= i < |parts|
    ensures After(parts, separator, i) == (separator + parts[i]) + After(parts, separator, i + 1)
  {
    assert parts[i..][1..] == parts[i + 1..];
    JoinedStart(parts[i..], separator);
    Associate(separator, parts[i], After(parts, separator, i + 1));
  }

  /** Two joined lists are joined by the separator; with one part nothing is added. */
  lemma {:induction false} JoinedAppend(a: seq<string>, b: seq<string>, separator: string)
    requires a != [] && b != []
    ensures Joined(a + b, separator) == Joined(a, separator) + separator + Joined(b, separator)
    ensures forall part: string :: Joined([part], separator) == part
    ensures Joined([], separator) == ""
    decreases |a|
  {
    hide Joined;
    JoinedOnes(separator);
    if |a| == 1 {
      assert a + b == [a[0]] + b && [a[0]] == a;
      JoinedPair(a[0], b, separator);
    } else {
      var rest := a[1..];
      JoinedAppend(rest, b, separator);
      assert a + b == [a[0]] + (rest + b) && a == [a[0]] + rest;
      JoinedPair(a[0], rest + b, separator);
      JoinedPair(a[0], rest, separator);
      Regroup(a[0], separator, Joined(rest, separator), Joined(b, separator));
    }
  }

  lemma JoinedOnes(separator: string)
    ensures forall part: string :: Joined([part], separator) == part
    ensures Joined([], separator) == ""
  {
  }

  lemma Regroup(a: string, s: string, r: string, b: string)
    ensures a + (s + (r + s + b)) == a + (s + r) + s + b
  {
    Associate(r, s, b);
    Associate(s, r, s + b);
    Associate(a, s + r, s + b);
    Associate(a + (s + r), s, b);
  }

  /** Joining the pieces of a string gives the string back. */
  lemma {:induction false} JoinSplit(s: string, d: char, start: nat)
    requires start <= |s|
    ensures Joined(Pieces(s, d, start), [d]) == s[start..]
    decreases |s| - start
  {
    hide Pieces, Joined;
    var end := Find(s, d, start);
    PieceStep(s, d, start);
    if end == |s| {
      assert [s[start..end]] + [] == [s[start..end]];
      JoinedStart([s[start..end]], [d]);
      assert s[start..end] + "" == s[start..];
    } else {
      JoinSplit(s, d, end + 1);
      var rest := Pieces(s, d, end + 1);
      JoinedPair(s[start..end], rest, [d]);
      SuffixParts(s, start, end);
    }
  }

  lemma JoinedPair(first: string, rest: seq<string>, separator: string)
    requires rest != []
    ensures Joined([first] + rest, separator) == first + (separator + Joined(rest, separator))
  {
    JoinedStart([first] + rest, separator);
    assert ([first] + rest)[1..] == rest;
  }

  lemma SuffixParts(s: string, start: nat, end: nat)
    requires start <= end < |s|
    ensures s[start..end] + ([s[end]] + s[end + 1..]) == s[start..]
  {
  }

  predicate Lacks(s: string, d: char) {
    forall i :: 0 <= i < |s| ==> s[i] != d
  }

  lemma FindAt(s: string, d: char, start: nat, end: nat)
    requires start <= end <= |s| && (end < |s| ==> s[end] == d) && forall i :: start <= i < end ==> s[i] != d
    ensures Find(s, d, start) == end
  {
  }

  lemma NextPieceLacks(s: string, d: char, start: nat)
    requires start <= |s|
    ensures Lacks(s[start..Find(s, d, start)], d)
  {
  }

  lemma {:induction false} PiecesLack(s: string, d: char, start: nat)
    requires start <= |s|
    ensures forall k :: 0 <= k < |Pieces(s, d, start)| ==> Lacks(Pieces(s, d, start)[k], d)
    decreases |s| - start
  {
    hide Lacks, Find;
    NextPieceLacks(s, d, start);
    var end := Find(s, d, start);
    if end < |s| {
      PiecesLack(s, d, end + 1);
    }
  }

  // Pieces only look at what follows.
  lemma {:induction false} PiecesShift(s: string, d: char, start: nat)
    requires start <= |s|
    ensures Pieces(s, d, start) == Pieces(s[start..], d, 0)
  {
    PiecesOfSuffix(s, d, start, start);
  }

  lemma SuffixSlice(s: string, from: nat, lo: nat, hi: nat)
    requires from <= lo <= hi <= |s|
    ensures s[from..][lo - from..hi - from] == s[lo..hi]
  {
  }

  lemma {:induction false} PiecesOfSuffix(s: string, d: char, from: nat, start: nat)
    requires from <= start <= |s|
    ensures Pieces(s, d, start) == Pieces(s[from..], d, start - from)
    decreases |s| - start
  {
    hide Pieces;
    var end := Find(s, d, start);
    var t := s[from..];
    FindAt(t, d, start - from, end - from);
    PieceStep(s, d, start);
    PieceStep(t, d, start - from);
    SuffixSlice(s, from, start, end);
    if end < |s| {
      PiecesOfSuffix(s, d, from, end + 1);
    }
  }

  lemma {:induction false} SplitOfJoined(parts: seq<string>, d: char)
    requires parts != [] && forall k :: 0 <= k < |parts| ==> Lacks(parts[k], d)
    ensures Pieces(Joined(parts, [d]), d, 0) == parts
    decreases |parts|
  {
    hide Joined, Pieces;
    JoinedStart(parts, [d]);
    if |parts| == 1 {
      OnePiece(parts[0], d);
    } else {
      SplitOfJoined(parts[1..], d);
      FirstPiece(parts[0], d, Joined(parts[1..], [d]));
      assert parts == [parts[0]] + parts[1..];
    }
  }

  lemma OnePiece(s: string, d: char)
    requires Lacks(s, d)
    ensures Pieces(s + "", d, 0) == [s]
  {
    assert s + "" == s;
    FindAt(s, d, 0, |s|);
    assert s[0..|s|] == s;
  }

  lemma FirstPiece(first: string, d: char, rest: string)
    requires Lacks(first, d)
    ensures Pieces(first + ([d] + rest), d, 0) == [first] + Pieces(rest, d, 0)
  {
    hide Pieces;
    var s, n := first + ([d] + rest), |first|;
    FindAt(s, d, 0, n);
    PieceStep(s, d, 0);
    assert s[0..n] == first && s[n + 1..] == rest;
    PiecesShift(s, d, n + 1);
  }

  /** Splitting gives joined parts back exactly when there is a part and no part contains the delimiter. */
  lemma SplitJoinIff(parts: seq<string>, d: char)
    ensures Pieces(Joined(parts, [d]), d, 0) == parts <==>
            parts != [] && forall k :: 0 <= k < |parts| ==> Lacks(parts[k], d)
  {
    if parts != [] && forall k :: 0 <= k < |parts| ==> Lacks(parts[k], d) {
      SplitOfJoined(parts, d);
    }
    PiecesLack(Joined(parts, [d]), d, 0);
  }

  // ---------- Page names ----------

  function Digit(k: nat): (c: char)
    requires k < 16
    ensures c != '.'
  {
    "0123456789abcdef"[k]
  }

  function Decimal(n: nat): (s: string)
    ensures |s| > 0 && Lacks(s, '.')
  {
    if n < 10 then [Digit(n)] else Decimal(n / 10) + [Digit(n % 10)]
  }

  // n hexadecimal digits of v.
  function Hex(v: nat, n: nat): (s: string)
    ensures |s| == n && Lacks(s, '.')
  {
    if n == 0 then "" else Hex(v / 16, n - 1) + [Digit(v % 16)]
  }

  /** getPagePath's file name. */
  function PageName(dest: uint32, id: nat): string {
    Hex(dest, 8) + "." + Decimal(id) + ".journal"
  }

  function Value(c: char): nat {
    if '0' <= c <= '9' then (c - '0') as nat else 0
  }

  function FromDecimal(s: string): nat {
    if s == "" then 0 else 10 * FromDecimal(s[..|s| - 1]) + Value(s[|s| - 1])
  }

  // std::stoi on a string of digits.
  method Stoi(s: string) returns (n: nat)
    ensures n == FromDecimal(s)
  {
    n := 0;
    var i := 0;
    while i < |s|
      invariant 0 <= i <= |s| && n == FromDecimal(s[..i])
    {
      assert s[..i + 1][..i] == s[..i];
      n := 10 * n + Value(s[i]);
      i := i + 1;
    }
    assert s[..i] == s;
  }

  lemma DigitValue(k: nat)
    requires k < 10
    ensures Value(Digit(k)) == k
  {
  }

  /** The usual decimal digits, the most significant first and not zero but for zero itself. */
  lemma {:induction false} DecimalRoundTrip(n: nat)
    ensures FromDecimal(Decimal(n)) == n
    ensures forall i :: 0 <= i < |Decimal(n)| ==> '0' <= Decimal(n)[i] <= '9'
    ensures Decimal(n)[0] == '0' ==> n == 0 && |Decimal(n)| == 1
    decreases n
  {
    if n < 10 {
      DigitValue(n);
      assert Decimal(n)[..0] == "";
    } else {
      DecimalRoundTrip(n / 10);
      DigitValue(n % 10);
      var s := Decimal(n);
      assert s[..|s| - 1] == Decimal(n / 10);
      assert s[0] == Decimal(n / 10)[0];
    }
  }

  function Pow16(n: nat): nat {
    if n == 0 then 1 else 16 * Pow16(n - 1)
  }

  lemma DigitInjective(a: nat, b: nat)
    requires a < 16 && b < 16 && Digit(a) == Digit(b)
    ensures a == b
  {
  }

  lemma {:induction false} HexInjective(a: nat, b: nat, n: nat)
    requires a < Pow16(n) && b < Pow16(n) && Hex(a, n) == Hex(b, n)
    ensures a == b
    decreases n
  {
    if n > 0 {
      var s, t := Hex(a, n), Hex(b, n);
      assert s[n - 1] == t[n - 1] && s[..n - 1] == Hex(a / 16, n - 1) && t[..n - 1] == Hex(b / 16, n - 1);
      DigitInjective(a % 16, b % 16);
      HexInjective(a / 16, b / 16, n - 1);
    }
  }

  function HexValue(c: char): nat {
    if '0' <= c <= '9' then (c - '0') as nat else if 'a' <= c <= 'f' then (c - 'a') as nat + 10 else 0
  }

  // Position by position: the first digit counts most.
  function FromHex(s: string): nat {
    if s == "" then 0 else HexValue(s[0]) * Pow16(|s| - 1) + FromHex(s[1..])
  }

  lemma HexDigitValue(k: nat)
    requires k < 16
    ensures HexValue(Digit(k)) == k
  {
  }

  lemma {:induction false} FromHexAppend(s: string, c: char)
    ensures FromHex(s + [c]) == 16 * FromHex(s) + HexValue(c)
    decreases |s|
  {
    if s == "" {
      assert (s + [c])[1..] == "";
    } else {
      assert (s + [c])[1..] == s[1..] + [c];
      FromHexAppend(s[1..], c);
      Scale(HexValue(s[0]), Pow16(|s| - 1), FromHex(s[1..]));
    }
  }

  lemma Scale(d: nat, p: nat, r: nat)
    ensures d * (16 * p) + 16 * r == 16 * (d * p + r)
  {
  }

  /** The digits are lower case, most significant first, padded with zeros. */
  lemma {:induction false} HexRoundTrip(v: nat, n: nat)
    requires v < Pow16(n)
    ensures FromHex(Hex(v, n)) == v
    ensures forall i :: 0 <= i < n ==> Hex(v, n)[i] in "0123456789abcdef"
    decreases n
  {
    if n > 0 {
      HexRoundTrip(v / 16, n - 1);
      FromHexAppend(Hex(v / 16, n - 1), Digit(v % 16));
      HexDigitValue(v % 16);
    }
  }

  lemma Extension(a: string, b: string)
    ensures a + "." + (b + "." + "journal") == a + "." + b + ".journal"
  {
    assert "." + "journal" == ".journal";
    Associate(a + ".", b, "." + "journal");
    Associate(b, ".", "journal");
  }

  /** A page name splits into its destination, its id and the extension. */
  lemma PageNameParts(dest: uint32, id: nat)
    ensures Pieces(PageName(dest, id), '.', 0) == [Hex(dest, 8), Decimal(id), "journal"]
  {
    var parts := [Hex(dest, 8), Decimal(id), "journal"];
    hide Hex, Decimal, Pieces;
    assert parts[1..] == [Decimal(id), "journal"] && [Decimal(id), "journal"][1..] == ["journal"];
    assert Joined([Decimal(id), "journal"], ".") == Decimal(id) + "." + "journal";
    Extension(Hex(dest, 8), Decimal(id));
    SplitOfJoined(parts, '.');
  }

  lemma SameDestination(a: uint32, b: uint32)
    ensures Hex(a, 8) == Hex(b, 8) <==> a == b
  {
    if Hex(a, 8) == Hex(b, 8) {
      assert Pow16(8) == 0x1_0000_0000;
      HexInjective(a, b, 8);
    }
  }

  /** Page files of different destinations or ids have different names. */
  lemma PageNameInjective(d1: uint32, i1: nat, d2: uint32, i2: nat)
    requires PageName(d1, i1) == PageName(d2, i2)
    ensures d1 == d2 && i1 == i2
  {
    PageNameParts(d1, i1);
    PageNameParts(d2, i2);
    SameDestination(d1, d2);
    DecimalRoundTrip(i1);
    DecimalRoundTrip(i2);
  }

  // ---------- Listing ----------

  datatype File = File(dest: uint32, id: nat)

  // The ids of a destination's files, in directory order.
  function IdsOf(files: seq<File>, dest: uint32): seq<nat> {
    if files == [] then []
    else IdsOf(files[..|files| - 1], dest)
         + if files[|files| - 1].dest == dest then [files[|files| - 1].id] else []
  }

  predicate Ascending(xs: seq<nat>) {
    forall i, j :: 0 <= i < j < |xs| ==> xs[i] <= xs[j]
  }

  function Inserted(xs: seq<nat>, x: nat): seq<nat> {
    if xs == [] || x <= xs[0] then [x] + xs else [xs[0]] + Inserted(xs[1..], x)
  }

  lemma {:induction false} InsertedContents(xs: seq<nat>, x: nat)
    ensures multiset(Inserted(xs, x)) == multiset(xs) + multiset{x}
    decreases |xs|
  {
    if xs != [] && x > xs[0] {
      InsertedContents(xs[1..], x);
      assert xs == [xs[0]] + xs[1..];
    }
  }

  lemma {:induction false} InsertedAscends(xs: seq<nat>, x: nat)
    requires Ascending(xs)
    ensures Ascending(Inserted(xs, x))
    decreases |xs|
  {
    if xs != [] && x > xs[0] {
      var rest := Inserted(xs[1..], x);
      InsertedAscends(xs[1..], x);
      InsertedContents(xs[1..], x);
      forall i | 0 <= i < |rest|
        ensures xs[0] <= rest[i]
      {
        assert rest[i] in multiset(rest);
        assert rest[i] in multiset(xs[1..]) || rest[i] == x;
      }
    }
  }

  // std::sort.
  function Sorted(xs: seq<nat>): seq<nat> {
    if xs == [] then [] else Inserted(Sorted(xs[1..]), xs[0])
  }

  lemma {:induction false} SortedIsSorted(xs: seq<nat>)
    ensures Ascending(Sorted(xs)) && multiset(Sorted(xs)) == multiset(xs)
    decreases |xs|
  {
    if xs != [] {
      SortedIsSorted(xs[1..]);
      InsertedAscends(Sorted(xs[1..]), xs[0]);
      InsertedContents(Sorted(xs[1..]), xs[0]);
      assert xs == [xs[0]] + xs[1..];
    }
  }

  /** Listing a directory of page files, of whatever destinations and in whatever order, yields exactly the
      ids of the destination's files, each once, in ascending order. A directory holds no name twice. */
  method ListPageId(entries: seq<string>, ghost files: seq<File>, dest: uint32) returns (pageIds: seq<nat>)
    requires |files| == |entries|
    requires forall k :: 0 <= k < |entries| ==> entries[k] == PageName(files[k].dest, files[k].id)
    requires forall i, j :: 0 <= i < j < |entries| ==> entries[i] != entries[j]
    ensures forall i, j :: 0 <= i < j < |pageIds| ==> pageIds[i] < pageIds[j]
    ensures forall id :: id in pageIds <==> File(dest, id) in files
  {
    hide PageName, Hex, Pieces;
    var hexDestId := Hex(dest, 8);
    pageIds := [];
    var k := 0;
    while k < |entries|
      invariant 0 <= k <= |entries|
      invariant pageIds == IdsOf(files[..k], dest)
    {
      PageNameParts(files[k].dest, files[k].id);
      SameDestination(files[k].dest, dest);
      DecimalRoundTrip(files[k].id);
      assert files[..k + 1][..k] == files[..k];
      var parts := Split(entries[k], '.');
      if parts[0] == hexDestId {
        var id := Stoi(parts[1]);
        pageIds := pageIds + [id];
      }
      k := k + 1;
    }
    assert files[..k] == files;
    SortedIsSorted(pageIds);
    pageIds := Sorted(pageIds);
    DistinctFiles(entries, files);
    IdsDistinct(files, dest);
    AscendingDistinct(pageIds);
    assert forall id :: id in pageIds <==> id in multiset(pageIds);
  }

  lemma DistinctFiles(entries: seq<string>, files: seq<File>)
    requires |files| == |entries|
    requires forall k :: 0 <= k < |entries| ==> entries[k] == PageName(files[k].dest, files[k].id)
    requires forall i, j :: 0 <= i < j < |entries| ==> entries[i] != entries[j]
    ensures forall i, j :: 0 <= i < j < |files| ==> files[i] != files[j]
  {
    hide PageName;
  }

  lemma AscendingDistinct(xs: seq<nat>)
    requires Ascending(xs) && forall x :: multiset(xs)[x] <= 1
    ensures forall i, j :: 0 <= i < j < |xs| ==> xs[i] < xs[j]
  {
    forall i, j | 0 <= i < j < |xs|
      ensures xs[i] < xs[j]
    {
      assert xs == xs[..j] + xs[j..];
      assert xs[i] in xs[..j] && xs[j] in xs[j..];
      assert multiset(xs)[xs[j]] == multiset(xs[..j])[xs[j]] + multiset(xs[j..])[xs[j]];
      assert multiset(xs[..j])[xs[i]] >= 1 && multiset(xs[j..])[xs[j]] >= 1;
    }
  }

  lemma {:induction false} IdsDistinct(files: seq<File>, dest: uint32)
    requires forall i, j :: 0 <= i < j < |files| ==> files[i] != files[j]
    ensures forall id :: id in IdsOf(files, dest) <==> File(dest, id) in files
    ensures forall id :: multiset(IdsOf(files, dest))[id] <= 1
    decreases |files|
  {
    if files != [] {
      var n := |files| - 1;
      IdsDistinct(files[..n], dest);
      assert files == files[..n] + [files[n]];
    }
  }
}
