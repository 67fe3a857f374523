/** Bytes, little-endian words, and the on-disk layout of pages and frames. */
module Layout {

  type byte = b: nat | b < 256
  type Bytes = seq<byte>

  type uint32 = x: nat | x < 0x1_0000_0000

  // Page sizes are multiples of the frame alignment, hold at least one minimal
  // frame beside the page header and the PageEnd slot, and fit 32 bits.
  type PageSize = p: nat | p % 64 == 0 && 192 <= p < 0x1_0000_0000 witness 192

  const FRAME_ALIGNMENT: nat := 64
  const PAGE_HEADER_SIZE: nat := 64
  const FRAME_HEADER_SIZE: nat := 32
  const JOURNAL_PAGE_VERSION: nat := 2
  const PAGE_END: nat := 10000

  // ---------- Little-endian words ----------

  function Pow256(n: nat): (r: nat)
    ensures r > 0
  {
    if n == 0 then 1 else 256 * Pow256(n - 1)
  }

  /** The n low-order bytes of v, least significant first; negative v in two's complement. */
  function LE(v: int, n: nat): (s: Bytes)
    ensures |s| == n
    decreases n
  {
    if n == 0 then [] else [v % 256] + LE(v / 256, n - 1)
  }

  function FromLE(s: Bytes): nat
  {
    if s == [] then 0 else s[0] + 256 * FromLE(s[1..])
  }

  function Zeros(n: nat): (s: Bytes)
    ensures |s| == n
    ensures forall i :: 0 <= i < n ==> s[i] == 0
  {
    seq(n, _ => 0)
  }

  lemma RemainderIsUnique(v: int, m: int, k: int, r: int)
    requires m > 0 && 0 <= r < m && v == m * k + r
    ensures v % m == r && v / m == k
  {
    var q, t := v / m, v % m;
    assert m * (q - k) == r - t;
    if q > k {
      MulGrows(m, q - k);
    } else if q < k {
      MulGrows(m, k - q);
    }
  }

  lemma MulGrows(m: int, d: int)
    requires m > 0 && d >= 1
    ensures m * d >= m
  {
  }

  /** Storing v in n bytes and loading it back truncates v to n bytes. */
  lemma {:induction false} LERoundTrip(v: int, n: nat)
    ensures FromLE(LE(v, n)) == v % Pow256(n)
    decreases n
  {
    if n == 0 {
    } else {
      var m := Pow256(n - 1);
      var q, r := v / 256, v % 256;
      LERoundTrip(q, n - 1);
      assert LE(v, n)[1..] == LE(q, n - 1);
      assert v == 256 * m * (q / m) + (256 * (q % m) + r) by {
        assert q == m * (q / m) + q % m;
        assert 256 * (m * (q / m)) == 256 * m * (q / m);
      }
      RemainderIsUnique(v, 256 * m, q / m, 256 * (q % m) + r);
    }
  }

  /** The i-th byte is the i-th digit to the base 256, the low-order one first. */
  lemma {:induction false} LEAt(v: int, n: nat, i: nat)
    requires i < n
    ensures LE(v, n)[i] == v / Pow256(i) % 256
    decreases n
  {
    if i > 0 {
      LEAt(v / 256, n - 1, i - 1);
      QuotientTwice(v, 256, Pow256(i - 1));
    }
  }

  lemma QuotientTwice(v: int, a: nat, b: nat)
    requires a > 0 && b > 0
    ensures a * b > 0 && v / a / b == v / (a * b)
  {
    MulGrows(a, b);
    var q := v / a;
    var r := a * (q % b) + v % a;
    assert v == a * q + v % a && q == b * (q / b) + q % b;
    assert a * (b * (q / b)) == a * b * (q / b);
    assert v == a * b * (q / b) + r;
    assert a * (q % b) <= a * (b - 1) by { MulMono(a, q % b, b - 1); }
    RemainderIsUnique(v, a * b, q / b, r);
  }

  lemma MulMono(a: nat, x: nat, y: nat)
    requires x <= y
    ensures a * x <= a * y
  {
  }

  /** Loading bytes and storing the word again gives the bytes back: a word is its bytes. */
  lemma {:induction false} FromLERoundTrip(s: Bytes)
    ensures LE(FromLE(s), |s|) == s
    decreases |s|
  {
    if s != [] {
      FromLERoundTrip(s[1..]);
      RemainderIsUnique(FromLE(s), 256, FromLE(s[1..]), s[0] as int);
      assert s == [s[0]] + s[1..];
    }
  }

  /** A word is zero exactly when all of its bytes are. */
  lemma {:induction false} FromLEZero(s: Bytes)
    ensures FromLE(s) == 0 <==> forall i :: 0 <= i < |s| ==> s[i] == 0
  {
    if s == [] {
    } else {
      FromLEZero(s[1..]);
      assert forall i :: 0 <= i < |s[1..]| ==> s[1..][i] == s[i + 1];
      if forall i :: 0 <= i < |s[1..]| ==> s[1..][i] == 0 {
        assert forall i :: 1 <= i < |s| ==> s[i] == s[1..][i - 1];
      }
    }
  }

  lemma PowValues()
    ensures Pow256(2) == 0x1_0000 && Pow256(4) == 0x1_0000_0000 && Pow256(8) == 0x1_0000_0000_0000_0000
  {
    assert Pow256(1) == 256;
    assert Pow256(3) == 256 * Pow256(2);
    assert Pow256(5) == 256 * Pow256(4);
    assert Pow256(6) == 256 * Pow256(5);
    assert Pow256(7) == 256 * Pow256(6);
  }

  // ---------- Frame strides ----------

  function AlignUp(value: nat, alignment: nat): (r: nat)
    requires alignment > 0
    ensures r % alignment == 0
    ensures value <= r < value + alignment
  {
    var k := (value + alignment - 1) / alignment;
    assert (k * alignment) % alignment == 0 by { RemainderIsUnique(k * alignment, alignment, k, 0); }
    k * alignment
  }

  /** The distance from one frame to the next. */
  function FramePhysicalLength(logicalLength: nat): (r: nat)
    ensures r % 64 == 0 && logicalLength <= r < logicalLength + 64
  {
    AlignUp(logicalLength, FRAME_ALIGNMENT)
  }

  // The stride of a frame with a payload of `size` bytes.
  function Stride(size: nat): nat {
    FramePhysicalLength(FRAME_HEADER_SIZE + size)
  }

  // framePhysicalLength as the code computes it: its argument and its result are 32-bit words.
  function FramePhysicalLength32(logicalLength: nat): nat {
    AlignUp(logicalLength % 0x1_0000_0000, FRAME_ALIGNMENT) % 0x1_0000_0000
  }

  /** No length up to the page size makes the 32-bit stride wrap around. */
  lemma StrideFits(P: PageSize, len: nat)
    requires len <= P
    ensures FramePhysicalLength32(len) == FramePhysicalLength(len) <= P
  {
    hide AlignUp;
    AlignUpIsLeast(len, FRAME_ALIGNMENT, P);
    assert len % 0x1_0000_0000 == len;
  }

  lemma MultiplesApart(alignment: int, a: int, b: int)
    requires alignment > 0 && alignment * b < alignment * a
    ensures alignment * b + alignment <= alignment * a
  {
    assert alignment * (a - b) == alignment * a - alignment * b;
    assert a > b;
    MulGrows(alignment, a - b);
  }

  /** Rounding up is the least aligned bound. */
  lemma AlignUpIsLeast(value: nat, alignment: nat, other: nat)
    requires alignment > 0 && other % alignment == 0 && value <= other
    ensures AlignUp(value, alignment) <= other
  {
    hide AlignUp;
    var r := AlignUp(value, alignment);
    if other < r {
      MultiplesApart(alignment, r / alignment, other / alignment);
    }
  }

  // ---------- Frame headers ----------

  function HeaderBytes(len: int, msgType: int, flags: int, sequence: int, genTime: int, eventTime: int): (s: Bytes)
    ensures |s| == 32
  {
    LE(len, 4) + LE(msgType, 2) + LE(flags, 2) + LE(sequence, 8) + LE(genTime, 8) + LE(eventTime, 8)
  }

  function LengthOf(frame: Bytes): nat
    requires |frame| >= 32
  {
    FromLE(frame[0..4])
  }

  function TypeOf(frame: Bytes): nat
    requires |frame| >= 32
  {
    FromLE(frame[4..6])
  }

  function FlagsOf(frame: Bytes): nat
    requires |frame| >= 32
  {
    FromLE(frame[6..8])
  }

  function SequenceOf(frame: Bytes): nat
    requires |frame| >= 32
  {
    FromLE(frame[8..16])
  }

  function Signed64(u: nat): int
  {
    if u < 0x8000_0000_0000_0000 then u else u - 0x1_0000_0000_0000_0000
  }

  function GenTimeOf(frame: Bytes): int
    requires |frame| >= 32
  {
    Signed64(FromLE(frame[16..24]))
  }

  function EventTimeOf(frame: Bytes): int
    requires |frame| >= 32
  {
    Signed64(FromLE(frame[24..32]))
  }

  lemma Signed64RoundTrip(v: int)
    requires -0x8000_0000_0000_0000 <= v < 0x8000_0000_0000_0000
    ensures Signed64(FromLE(LE(v, 8))) == v
  {
    hide LE, FromLE;
    LERoundTrip(v, 8);
    PowValues();
    if v < 0 {
      RemainderIsUnique(v, 0x1_0000_0000_0000_0000, -1, v + 0x1_0000_0000_0000_0000);
    }
  }

  lemma UnsignedRoundTrip(v: int, n: nat)
    requires 0 <= v < Pow256(n)
    ensures FromLE(LE(v, n)) == v
  {
    LERoundTrip(v, n);
  }

  /** Where each field of a header lies. */
  lemma HeaderFields(len: int, msgType: int, flags: int, sequence: int, genTime: int, eventTime: int)
    ensures var h := HeaderBytes(len, msgType, flags, sequence, genTime, eventTime);
            h[0..4] == LE(len, 4) && h[4..6] == LE(msgType, 2) && h[6..8] == LE(flags, 2)
            && h[8..16] == LE(sequence, 8) && h[16..24] == LE(genTime, 8) && h[24..32] == LE(eventTime, 8)
  {
    hide LE;
    var a := LE(len, 4) + LE(msgType, 2);
    var b := a + LE(flags, 2);
    var c := b + LE(sequence, 8);
    var d := c + LE(genTime, 8);
    var h := d + LE(eventTime, 8);
    assert h[24..32] == LE(eventTime, 8) && h[..24] == d;
    assert d[16..24] == LE(genTime, 8) && d[..16] == c;
    assert c[8..16] == LE(sequence, 8) && c[..8] == b;
    assert b[6..8] == LE(flags, 2) && b[..6] == a;
    assert a[0..4] == LE(len, 4) && a[4..6] == LE(msgType, 2);
    PrefixSlice(h, 24, 16, 24);
    PrefixSlice(d, 16, 8, 16);
    PrefixSlice(h, 24, 8, 16);
    PrefixSlices(h, d, c, b, a);
  }

  lemma PrefixSlice(s: Bytes, n: nat, lo: nat, hi: nat)
    requires lo <= hi <= n <= |s|
    ensures s[..n][lo..hi] == s[lo..hi]
  {
  }

  lemma PrefixSlices(h: Bytes, d: Bytes, c: Bytes, b: Bytes, a: Bytes)
    requires |h| == 32 && d == h[..24] && c == d[..16] && b == c[..8] && a == b[..6]
    ensures h[6..8] == b[6..8] && h[0..4] == a[0..4] && h[4..6] == a[4..6]
  {
    assert b == h[..8] && a == h[..6];
    PrefixSlice(h, 8, 6, 8);
    PrefixSlice(h, 6, 0, 4);
    PrefixSlice(h, 6, 4, 6);
  }

  /** Decoding what was encoded gives back every field of the frame. */
  lemma HeaderRoundTrip(frame: Bytes, msgType: nat, flags: nat, sequence: nat, genTime: int, eventTime: int,
                        payload: Bytes)
    requires msgType < 0x1_0000 && flags < 0x1_0000 && sequence < 0x1_0000_0000_0000_0000
    requires 32 + |payload| < 0x1_0000_0000
    requires -0x8000_0000_0000_0000 <= genTime < 0x8000_0000_0000_0000
    requires -0x8000_0000_0000_0000 <= eventTime < 0x8000_0000_0000_0000
    requires frame == HeaderBytes(32 + |payload|, msgType, flags, sequence, genTime, eventTime) + payload
    ensures LengthOf(frame) == |frame| && TypeOf(frame) == msgType && FlagsOf(frame) == flags
    ensures SequenceOf(frame) == sequence && GenTimeOf(frame) == genTime && EventTimeOf(frame) == eventTime
    ensures frame[32..] == payload
  {
    var h := HeaderBytes(32 + |payload|, msgType, flags, sequence, genTime, eventTime);
    HeaderFields(32 + |payload|, msgType, flags, sequence, genTime, eventTime);
    assert frame[0..4] == h[0..4] && frame[4..6] == h[4..6] && frame[6..8] == h[6..8];
    assert frame[8..16] == h[8..16] && frame[16..24] == h[16..24] && frame[24..32] == h[24..32];
    PowValues();
    UnsignedRoundTrip(32 + |payload|, 4);
    UnsignedRoundTrip(msgType, 2);
    UnsignedRoundTrip(flags, 2);
    UnsignedRoundTrip(sequence, 8);
    Signed64RoundTrip(genTime);
    Signed64RoundTrip(eventTime);
  }

  // ---------- Stores ----------

  /** A store of some bytes at an offset into an image. */
  datatype Store = Store(off: nat, bytes: Bytes)

  function Put(img: Bytes, s: Store): (r: Bytes)
    requires s.off + |s.bytes| <= |img|
    ensures |r| == |img|
  {
    img[..s.off] + s.bytes + img[s.off + |s.bytes|..]
  }

  predicate StoresFit(stores: seq<Store>, n: nat)
  {
    forall i :: 0 <= i < |stores| ==> stores[i].off + |stores[i].bytes| <= n
  }

  function PutAll(img: Bytes, stores: seq<Store>): (r: Bytes)
    requires StoresFit(stores, |img|)
    ensures |r| == |img|
    decreases |stores|
  {
    if stores == [] then img else PutAll(Put(img, stores[0]), stores[1..])
  }

  /** The stores with which openFrame fills a fresh frame header, in program order. */
  function OpenStores(timestamp: int, msgType: nat, flags: nat, sequence: int): (s: seq<Store>)
    ensures |s| == 7 && StoresFit(s, 32)
  {
    [Store(0, Zeros(32)), Store(16, LE(timestamp, 8)), Store(24, LE(0, 8)), Store(4, LE(msgType, 2)),
     Store(6, LE(flags, 2)), Store(8, LE(sequence, 8)), Store(0, LE(0, 4))]
  }

  /** The stores with which rotatePage fills the PageEnd header before releasing its length. */
  function PageEndStores(now: int, sequence: int): (s: seq<Store>)
    ensures |s| == 6 && StoresFit(s, 32)
  {
    [Store(0, Zeros(32)), Store(16, LE(now, 8)), Store(24, LE(0, 8)), Store(4, LE(PAGE_END, 2)),
     Store(6, LE(0, 2)), Store(8, LE(sequence, 8))]
  }

  /** The stores with which Page::load initialises the header of a new page. */
  function PageHeaderStores(P: PageSize): (s: seq<Store>)
    ensures |s| == 6 && StoresFit(s, 64)
  {
    [Store(0, Zeros(64)), Store(0, LE(JOURNAL_PAGE_VERSION, 4)), Store(4, LE(64, 4)), Store(8, LE(P, 4)),
     Store(12, LE(32, 4)), Store(16, LE(64, 8))]
  }

  /** The stores with which the page warmer initialises a page file it has just created. */
  function WarmStores(P: PageSize): (s: seq<Store>)
    ensures |s| == 6 && StoresFit(s, P)
  {
    [Store(0, LE(JOURNAL_PAGE_VERSION, 4)), Store(4, LE(64, 4)), Store(8, LE(P, 4)), Store(12, LE(32, 4)),
     Store(16, LE(64, 8)), Store(64, Zeros(P - 64))]
  }

  /** The part of a valid page header that never changes: version, header length and page size. */
  function HeaderPrefix(P: PageSize): (s: Bytes)
    ensures |s| == 12
  {
    LE(JOURNAL_PAGE_VERSION, 4) + LE(64, 4) + LE(P, 4)
  }

  lemma PutAt(img: Bytes, s: Store, x: nat)
    requires s.off + |s.bytes| <= |img| && x < |img|
    ensures Put(img, s)[x] == if s.off <= x < s.off + |s.bytes| then s.bytes[x - s.off] else img[x]
  {
  }

  /** A slice that a store misses is unchanged; a slice that it hits exactly is what was stored. */
  lemma PutSlice(img: Bytes, s: Store, lo: nat, hi: nat)
    requires s.off + |s.bytes| <= |img| && lo <= hi <= |img|
    ensures hi <= s.off || s.off + |s.bytes| <= lo ==> Put(img, s)[lo..hi] == img[lo..hi]
    ensures lo == s.off && hi == s.off + |s.bytes| ==> Put(img, s)[lo..hi] == s.bytes
  {
  }

  lemma PutAllAppend(img: Bytes, a: seq<Store>, s: Store)
    requires StoresFit(a + [s], |img|)
    ensures StoresFit(a, |img|) && s.off + |s.bytes| <= |img|
    ensures PutAll(img, a + [s]) == Put(PutAll(img, a), s)
    decreases |a|
  {
    assert (a + [s])[|a|] == s;
    assert forall i :: 0 <= i < |a| ==> (a + [s])[i] == a[i];
    if a == [] {
      assert a + [s] == [s];
      assert PutAll(img, [s]) == PutAll(Put(img, s), []);
    } else {
      assert (a + [s])[1..] == a[1..] + [s];
      assert (a + [s])[0] == a[0];
      PutAllAppend(Put(img, a[0]), a[1..], s);
    }
  }

  predicate Misses(s: Store, lo: nat, hi: nat)
  {
    s.off + |s.bytes| <= lo || hi <= s.off
  }

  /** Stores that all miss a slice leave it unchanged. */
  lemma {:induction false} PutAllMisses(img: Bytes, stores: seq<Store>, lo: nat, hi: nat)
    requires StoresFit(stores, |img|) && lo <= hi <= |img|
    requires forall i :: 0 <= i < |stores| ==> Misses(stores[i], lo, hi)
    ensures PutAll(img, stores)[lo..hi] == img[lo..hi]
    decreases |stores|
  {
    if stores == [] {
    } else {
      PutSlice(img, stores[0], lo, hi);
      PutAllMisses(Put(img, stores[0]), stores[1..], lo, hi);
    }
  }

  /** The last store to hit a slice decides its contents. */
  lemma {:induction false} PutAllLast(img: Bytes, stores: seq<Store>, j: nat, lo: nat, hi: nat)
    requires StoresFit(stores, |img|) && j < |stores|
    requires stores[j].off <= lo <= hi <= stores[j].off + |stores[j].bytes|
    requires forall i :: j < i < |stores| ==> Misses(stores[i], lo, hi)
    ensures PutAll(img, stores)[lo..hi] == stores[j].bytes[lo - stores[j].off..hi - stores[j].off]
    ensures hi - lo == |stores[j].bytes| ==> PutAll(img, stores)[lo..hi] == stores[j].bytes
    decreases |stores|
  {
    var s := stores[0];
    if j == 0 {
      assert Put(img, s)[lo..hi] == s.bytes[lo - s.off..hi - s.off];
      PutAllMisses(Put(img, s), stores[1..], lo, hi);
    } else {
      PutAllLast(Put(img, s), stores[1..], j - 1, lo, hi);
    }
  }

  lemma {:induction false} ZeroWord(n: nat)
    ensures LE(0, n) == Zeros(n)
    decreases n
  {
    if n > 0 {
      ZeroWord(n - 1);
    }
  }

  lemma SliceOfSlice(s: Bytes, m: nat, n: nat, lo: nat, hi: nat)
    requires m <= lo <= hi <= n <= |s|
    ensures s[m..n][lo - m..hi - m] == s[lo..hi]
  {
    var t := s[m..n];
    forall i | 0 <= i < hi - lo
      ensures t[lo - m..hi - m][i] == s[lo..hi][i]
    {
      assert t[lo - m + i] == s[lo + i];
    }
  }

  lemma SliceJoin(s: Bytes, b: nat, c: nat)
    requires b <= c <= |s|
    ensures s[0..c] == s[0..b] + s[b..c]
  {
  }

  /** A header is determined by its six fields. */
  lemma HeaderFromFields(img: Bytes, len: int, msgType: int, flags: int, sequence: int, genTime: int, eventTime: int)
    requires |img| == 32
    requires img[0..4] == LE(len, 4) && img[4..6] == LE(msgType, 2) && img[6..8] == LE(flags, 2)
    requires img[8..16] == LE(sequence, 8) && img[16..24] == LE(genTime, 8) && img[24..32] == LE(eventTime, 8)
    ensures img == HeaderBytes(len, msgType, flags, sequence, genTime, eventTime)
  {
    hide LE;
    SliceJoin(img, 4, 6);
    SliceJoin(img, 6, 8);
    SliceJoin(img, 8, 16);
    SliceJoin(img, 16, 24);
    SliceJoin(img, 24, 32);
    assert img[0..32] == img;
  }

  /** The stores of openFrame leave exactly the requested header, its length still zero. */
  lemma OpenStoresResult(img: Bytes, timestamp: int, msgType: nat, flags: nat, sequence: int)
    requires |img| == 32
    ensures PutAll(img, OpenStores(timestamp, msgType, flags, sequence))
            == HeaderBytes(0, msgType, flags, sequence, timestamp, 0)
  {
    hide PutAll, LE;
    var stores := OpenStores(timestamp, msgType, flags, sequence);
    PutAllLast(img, stores, 6, 0, 4);
    PutAllLast(img, stores, 3, 4, 6);
    PutAllLast(img, stores, 4, 6, 8);
    PutAllLast(img, stores, 5, 8, 16);
    PutAllLast(img, stores, 1, 16, 24);
    PutAllLast(img, stores, 2, 24, 32);
    HeaderFromFields(PutAll(img, stores), 0, msgType, flags, sequence, timestamp, 0);
  }

  /** The stores of rotatePage leave a PageEnd header, its length still zero. */
  lemma PageEndStoresResult(img: Bytes, now: int, sequence: int)
    requires |img| == 32
    ensures PutAll(img, PageEndStores(now, sequence)) == HeaderBytes(0, PAGE_END, 0, sequence, now, 0)
  {
    hide PutAll, LE;
    var stores := PageEndStores(now, sequence);
    ZeroWord(4);
    PutAllLast(img, stores, 0, 0, 4);
    PutAllLast(img, stores, 3, 4, 6);
    PutAllLast(img, stores, 4, 6, 8);
    PutAllLast(img, stores, 5, 8, 16);
    PutAllLast(img, stores, 1, 16, 24);
    PutAllLast(img, stores, 2, 24, 32);
    HeaderFromFields(PutAll(img, stores), 0, PAGE_END, 0, sequence, now, 0);
  }

  predicate ValidPageHeader(P: PageSize, img: Bytes)
    requires |img| >= 64
  {
    img[0..12] == HeaderPrefix(P) && PAGE_HEADER_SIZE <= FromLE(img[16..24]) < P
  }

  lemma FirstFramePosition()
    ensures FromLE(LE(64, 8)) == 64
  {
    PowValues();
    UnsignedRoundTrip(64, 8);
  }

  lemma HeaderFromWords(P: PageSize, img: Bytes)
    requires |img| >= 64
    requires img[0..4] == LE(JOURNAL_PAGE_VERSION, 4) && img[4..8] == LE(64, 4) && img[8..12] == LE(P, 4)
    requires img[16..24] == LE(64, 8)
    ensures ValidPageHeader(P, img) && FromLE(img[16..24]) == 64
  {
    hide LE, FromLE;
    SliceJoin(img, 4, 8);
    SliceJoin(img, 8, 12);
    FirstFramePosition();
  }

  /** The words that the warmer stores, and nothing else in the header touched. */
  lemma WarmHeaderWhole(P: PageSize, img: Bytes)
    requires |img| == P
    ensures var r := PutAll(img, WarmStores(P));
            && r[0..4] == LE(2, 4) && r[4..8] == LE(64, 4) && r[8..12] == LE(P, 4) && r[12..16] == LE(32, 4)
            && r[16..24] == LE(64, 8) && r[24..64] == img[24..64]
  {
    hide PutAll, LE, Zeros;
    var stores := WarmStores(P);
    PutAllLast(img, stores, 0, 0, 4);
    PutAllLast(img, stores, 1, 4, 8);
    PutAllLast(img, stores, 2, 8, 12);
    PutAllLast(img, stores, 3, 12, 16);
    PutAllLast(img, stores, 4, 16, 24);
    PutAllMisses(img, stores, 24, 64);
  }

  /** The whole header that Page::load makes, whatever was there, and nothing behind it touched. */
  lemma PageHeaderWhole(P: PageSize, img: Bytes)
    requires |img| == P
    ensures StoresFit(PageHeaderStores(P), P)
    ensures var r := PutAll(img, PageHeaderStores(P));
            && r[0..4] == LE(2, 4) && r[4..8] == LE(64, 4) && r[8..12] == LE(P, 4) && r[12..16] == LE(32, 4)
            && r[16..24] == LE(64, 8) && r[24..64] == Zeros(64)[24..64] && r[64..P] == img[64..P]
  {
    hide PutAll, LE, Zeros;
    var stores := PageHeaderStores(P);
    PutAllLast(img, stores, 1, 0, 4);
    PutAllLast(img, stores, 2, 4, 8);
    PutAllLast(img, stores, 3, 8, 12);
    PutAllLast(img, stores, 4, 12, 16);
    PutAllLast(img, stores, 5, 16, 24);
    PutAllLast(img, stores, 0, 24, 64);
    PutAllMisses(img, stores, 64, P);
  }

  /** Page::load leaves a new page with a valid header that points at the first frame. */
  lemma PageHeaderStoresResult(P: PageSize, img: Bytes)
    requires |img| >= 64
    ensures StoresFit(PageHeaderStores(P), |img|)
    ensures var r := PutAll(img, PageHeaderStores(P)); ValidPageHeader(P, r) && FromLE(r[16..24]) == 64
  {
    hide PutAll, LE, FromLE, ValidPageHeader;
    var stores := PageHeaderStores(P);
    PutAllLast(img, stores, 1, 0, 4);
    PutAllLast(img, stores, 2, 4, 8);
    PutAllLast(img, stores, 3, 8, 12);
    PutAllLast(img, stores, 5, 16, 24);
    HeaderFromWords(P, PutAll(img, stores));
  }

  /** The page warmer leaves a page file it created with the same header. */
  lemma WarmStoresResult(P: PageSize, img: Bytes)
    requires |img| == P
    ensures var r := PutAll(img, WarmStores(P)); ValidPageHeader(P, r) && FromLE(r[16..24]) == 64
    ensures PutAll(img, WarmStores(P))[64..P] == Zeros(P - 64)
  {
    hide PutAll, LE, FromLE, ValidPageHeader, Zeros;
    var stores := WarmStores(P);
    PutAllLast(img, stores, 5, 64, P);
    PutAllLast(img, stores, 0, 0, 4);
    PutAllLast(img, stores, 1, 4, 8);
    PutAllLast(img, stores, 2, 8, 12);
    PutAllLast(img, stores, 4, 16, 24);
    HeaderFromWords(P, PutAll(img, stores));
  }
}
