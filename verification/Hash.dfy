/** The 32-bit hashes from which location ids are made: MurmurHash3_x86_32 and FNV-1a. */
module Hash {

  // The operations of the algorithms on 32-bit words, and below each what undoes it.

  function Xor(x: bv32, y: bv32): bv32 { x ^ y }

  function Rotl15(x: bv32): bv32 { (x << 15) | (x >> 17) }

  function Rotr15(x: bv32): bv32 { (x << 17) | (x >> 15) }

  function Rotl13(x: bv32): bv32 { (x << 13) | (x >> 19) }

  function Rotr13(x: bv32): bv32 { (x << 19) | (x >> 13) }

  function XorShift16(x: bv32): bv32 { x ^ (x >> 16) }

  function XorShift16Back(x: bv32): bv32 { x ^ (x >> 16) }

  function XorShift13(x: bv32): bv32 { x ^ (x >> 13) }

  function XorShift13Back(x: bv32): bv32 { x ^ (x >> 13) ^ (x >> 26) }

  function TimesC1(x: bv32): bv32 { x * 0xcc9e2d51 }

  function OverC1(x: bv32): bv32 { x * 0xdee13bb1 }

  function TimesC2(x: bv32): bv32 { x * 0x1b873593 }

  function OverC2(x: bv32): bv32 { x * 0x56ed309b }

  function Times5Plus(x: bv32): bv32 { x * 5 + 0xe6546b64 }

  function Times5PlusBack(x: bv32): bv32 { (x - 0xe6546b64) * 0xcccccccd }

  function TimesF1(x: bv32): bv32 { x * 0x85ebca6b }

  function OverF1(x: bv32): bv32 { x * 0xa5cb9243 }

  function TimesF2(x: bv32): bv32 { x * 0xc2b2ae35 }

  function OverF2(x: bv32): bv32 { x * 0x7ed1b41d }

  function TimesPrime(x: bv32): bv32 { x * 16777619 }

  function OverPrime(x: bv32): bv32 { x * 0x359c449b }

  // What the body does to a block before it enters the state.
  function Scrambled(k: bv32): bv32 {
    TimesC2(Rotl15(TimesC1(k)))
  }

  function Stirred(h: bv32, k: bv32): bv32 {
    Times5Plus(Rotl13(Xor(h, k)))
  }

  function Mixed(h: bv32): bv32 {
    XorShift16(TimesF2(XorShift13(TimesF1(XorShift16(h)))))
  }

  function Block(b0: bv8, b1: bv8, b2: bv8, b3: bv8): bv32 {
    (b0 as bv32) | ((b1 as bv32) << 8) | ((b2 as bv32) << 16) | ((b3 as bv32) << 24)
  }

  function BlockAt(key: seq<bv8>, i: nat): bv32
    requires 4 * i + 4 <= |key|
  {
    Block(key[4 * i], key[4 * i + 1], key[4 * i + 2], key[4 * i + 3])
  }

  // The state after the first n blocks.
  function Body(key: seq<bv8>, seed: bv32, n: nat): bv32
    requires 4 * n <= |key|
  {
    if n == 0 then seed else Stirred(Body(key, seed, n - 1), Scrambled(BlockAt(key, n - 1)))
  }

  // The last bytes, fewer than a block.
  function Tail(key: seq<bv8>): (r: seq<bv8>)
    ensures |r| == |key| % 4
  {
    key[|key| / 4 * 4..]
  }

  // Absent bytes count as zero.
  function TailBits(t0: bv8, t1: bv8, t2: bv8): bv32 {
    ((t2 as bv32) << 16) ^ ((t1 as bv32) << 8) ^ (t0 as bv32)
  }

  function TailWord(tail: seq<bv8>): bv32
    requires 0 < |tail| < 4
  {
    TailBits(tail[0], if |tail| >= 2 then tail[1] else 0, if |tail| == 3 then tail[2] else 0)
  }

  function LengthWord(len: nat): bv32
    requires len < 0x8000_0000
  {
    len as bv32
  }

  // The state when the tail and the length are in, before the final mix.
  function Absorbed(key: seq<bv8>, seed: bv32): bv32
    requires |key| < 0x8000_0000
  {
    var h := Body(key, seed, |key| / 4);
    Xor(if |key| % 4 == 0 then h else Xor(h, Scrambled(TailWord(Tail(key)))), LengthWord(|key|))
  }

  /** The hash as a composition of its stages. */
  function Murmur(key: seq<bv8>, seed: bv32): bv32
    requires |key| < 0x8000_0000
  {
    Mixed(Absorbed(key, seed))
  }

  method MurmurHash3_x86_32(key: seq<bv8>, seed: bv32) returns (out: bv32)
    requires |key| < 0x8000_0000
    ensures out == Murmur(key, seed)
  {
    hide Xor, Rotl15, Rotl13, TimesC1, TimesC2, Times5Plus, Mixed, Block, LengthWord, TailBits;
    var len := |key|;
    var nblocks := len / 4;
    var h1 := seed;
    var i := 0;
    while i < nblocks
      invariant 0 <= i <= nblocks
      invariant h1 == Body(key, seed, i)
    {
      var k1 := BlockAt(key, i);
      k1 := TimesC1(k1);
      k1 := Rotl15(k1);
      k1 := TimesC2(k1);
      h1 := Xor(h1, k1);
      h1 := Rotl13(h1);
      h1 := Times5Plus(h1);
      i := i + 1;
    }
    var tail := key[nblocks * 4..];
    if len % 4 >= 1 {
      var k1 := TailXor(tail);
      k1 := TimesC1(k1);
      k1 := Rotl15(k1);
      k1 := TimesC2(k1);
      h1 := Xor(h1, k1);
    }
    h1 := Xor(h1, LengthWord(len));
    out := Fmix32(h1);
  }

  // The falling-through cases that collect the tail.
  method TailXor(tail: seq<bv8>) returns (k1: bv32)
    requires 0 < |tail| < 4
    ensures k1 == TailWord(tail)
  {
    k1 := 0;
    if |tail| == 3 {
      k1 := k1 ^ ((tail[2] as bv32) << 16);
    }
    if |tail| >= 2 {
      k1 := k1 ^ ((tail[1] as bv32) << 8);
    }
    k1 := k1 ^ (tail[0] as bv32);
  }

  method Fmix32(h: bv32) returns (r: bv32)
    ensures r == Mixed(h)
  {
    hide XorShift16, XorShift13, TimesF1, TimesF2;
    r := h;
    r := XorShift16(r);
    r := TimesF1(r);
    r := XorShift13(r);
    r := TimesF2(r);
    r := XorShift16(r);
  }

  function Folded(h: bv32, x: bv8): bv32 {
    TimesPrime(Xor(h, x as bv32))
  }

  function Fnv(s: seq<bv8>): bv32 {
    if s == [] then 2166136261 else Folded(Fnv(s[..|s| - 1]), s[|s| - 1])
  }

  method Fnv1a_32(s: seq<bv8>) returns (hash: bv32)
    ensures hash == Fnv(s)
  {
    hide TimesPrime, Xor;
    hash := 2166136261;
    var i := 0;
    while i < |s|
      invariant 0 <= i <= |s|
      invariant hash == Fnv(s[..i])
    {
      assert s[..i + 1][..i] == s[..i];
      hash := Xor(hash, s[i] as bv32);
      hash := TimesPrime(hash);
      i := i + 1;
    }
    assert s[..i] == s;
  }

  // ---------- Every stage can be undone ----------

  lemma C1UndoneTerm(x: bv32)
    ensures OverC1(x * 0xcc9e2d51) == x
  {
  }

  lemma C1Undone(x: bv32)
    ensures OverC1(TimesC1(x)) == x
  {
    C1UndoneTerm(x);
    hide OverC1;
  }

  lemma C2UndoneTerm(x: bv32)
    ensures OverC2(x * 0x1b873593) == x
  {
  }

  lemma C2Undone(x: bv32)
    ensures OverC2(TimesC2(x)) == x
  {
    C2UndoneTerm(x);
    hide OverC2;
  }

  lemma Times5PlusUndoneTerm(x: bv32)
    ensures Times5PlusBack(x * 5 + 0xe6546b64) == x
  {
  }

  lemma Times5PlusUndone(x: bv32)
    ensures Times5PlusBack(Times5Plus(x)) == x
  {
    Times5PlusUndoneTerm(x);
    hide Times5PlusBack;
  }

  lemma F1UndoneTerm(x: bv32)
    ensures OverF1(x * 0x85ebca6b) == x
  {
  }

  lemma F1Undone(x: bv32)
    ensures OverF1(TimesF1(x)) == x
  {
    F1UndoneTerm(x);
    hide OverF1;
  }

  lemma F2UndoneTerm(x: bv32)
    ensures OverF2(x * 0xc2b2ae35) == x
  {
  }

  lemma F2Undone(x: bv32)
    ensures OverF2(TimesF2(x)) == x
  {
    F2UndoneTerm(x);
    hide OverF2;
  }

  lemma PrimeUndoneTerm(x: bv32)
    ensures OverPrime(x * 16777619) == x
  {
  }

  lemma PrimeUndone(x: bv32)
    ensures OverPrime(TimesPrime(x)) == x
  {
    PrimeUndoneTerm(x);
    hide OverPrime;
  }

  lemma Rotl15Undone(x: bv32)
    ensures Rotr15(Rotl15(x)) == x
  {
  }

  lemma Rotl13Undone(x: bv32)
    ensures Rotr13(Rotl13(x)) == x
  {
  }

  lemma XorShift16UndoneTerm(x: bv32)
    ensures XorShift16Back(x ^ (x >> 16)) == x
  {
  }

  lemma XorShift16Undone(x: bv32)
    ensures XorShift16Back(XorShift16(x)) == x
  {
    XorShift16UndoneTerm(x);
    hide XorShift16Back;
  }

  lemma XorShift13UndoneTerm(x: bv32)
    ensures XorShift13Back(x ^ (x >> 13)) == x
  {
  }

  lemma XorShift13Undone(x: bv32)
    ensures XorShift13Back(XorShift13(x)) == x
  {
    XorShift13UndoneTerm(x);
    hide XorShift13Back;
  }

  // What the body does to a block, and the final mix, undone.
  function Unscrambled(k: bv32): bv32 {
    OverC1(Rotr15(OverC2(k)))
  }

  function Unmixed(h: bv32): bv32 {
    XorShift16Back(OverF1(XorShift13Back(OverF2(XorShift16Back(h)))))
  }

  lemma ScrambledUndone(k: bv32)
    ensures Unscrambled(Scrambled(k)) == k
  {
    hide TimesC1, TimesC2, OverC1, OverC2, Rotl15, Rotr15;
    C2Undone(Rotl15(TimesC1(k)));
    Rotl15Undone(TimesC1(k));
    C1Undone(k);
  }

  /** The final mix loses nothing. */
  lemma MixedUndone(h: bv32)
    ensures Unmixed(Mixed(h)) == h
  {
    hide TimesF1, TimesF2, OverF1, OverF2, XorShift16, XorShift16Back, XorShift13, XorShift13Back;
    var a := XorShift16(h);
    var b := XorShift13(TimesF1(a));
    XorShift16Undone(TimesF2(b));
    F2Undone(b);
    XorShift13Undone(TimesF1(a));
    F1Undone(a);
    XorShift16Undone(h);
  }

  lemma XorCancels(h: bv32, g: bv32, k: bv32, l: bv32)
    requires Xor(h, k) == Xor(g, l)
    ensures k == l ==> h == g
    ensures h == g ==> k == l
  {
  }

  lemma StirUndone(a: bv32, b: bv32)
    requires Times5Plus(Rotl13(a)) == Times5Plus(Rotl13(b))
    ensures a == b
  {
    hide Times5Plus, Times5PlusBack, Rotl13, Rotr13;
    Times5PlusUndone(Rotl13(a));
    Times5PlusUndone(Rotl13(b));
    Rotl13Undone(a);
    Rotl13Undone(b);
  }

  // Two states stay different under one block, and one state becomes different under two blocks.
  lemma StirredInjective(h: bv32, g: bv32, k: bv32, l: bv32)
    requires Stirred(h, k) == Stirred(g, l)
    ensures k == l ==> h == g
    ensures h == g ==> k == l
  {
    hide Xor, Times5Plus, Rotl13;
    StirUndone(Xor(h, k), Xor(g, l));
    XorCancels(h, g, k, l);
  }

  lemma WidenInjective(a: bv8, b: bv8)
    requires a as bv32 == b as bv32
    ensures a == b
  {
  }

  lemma BlockInjective(a0: bv8, a1: bv8, a2: bv8, a3: bv8, b0: bv8, b1: bv8, b2: bv8, b3: bv8)
    requires Block(a0, a1, a2, a3) == Block(b0, b1, b2, b3)
    ensures a0 == b0 && a1 == b1 && a2 == b2 && a3 == b3
  {
  }

  lemma TailBytes(a0: bv8, a1: bv8, a2: bv8, b0: bv8, b1: bv8, b2: bv8)
    requires TailBits(a0, a1, a2) == TailBits(b0, b1, b2)
    ensures a0 == b0 && a1 == b1 && a2 == b2
  {
  }

  lemma TailInjective(a: seq<bv8>, b: seq<bv8>)
    requires 0 < |a| == |b| < 4 && TailWord(a) == TailWord(b)
    ensures a == b
  {
    hide TailBits;
    TailBytes(a[0], if |a| >= 2 then a[1] else 0, if |a| == 3 then a[2] else 0,
              b[0], if |b| >= 2 then b[1] else 0, if |b| == 3 then b[2] else 0);
  }

  // ---------- What never collides ----------

  predicate SameBlocks(a: seq<bv8>, b: seq<bv8>, m: nat, n: nat)
    requires 4 * n <= |a| && 4 * n <= |b|
  {
    forall i :: 4 * m <= i < 4 * n ==> a[i] == b[i]
  }

  lemma {:induction false} BodySame(a: seq<bv8>, b: seq<bv8>, seed: bv32, n: nat)
    requires 4 * n <= |a| && 4 * n <= |b| && SameBlocks(a, b, 0, n)
    ensures Body(a, seed, n) == Body(b, seed, n)
    decreases n
  {
    hide Block, Scrambled, Stirred;
    if n > 0 {
      BodySame(a, b, seed, n - 1);
    }
  }

  // Different states stay different while the blocks are the same.
  lemma {:induction false} BodyStaysDifferent(a: seq<bv8>, sa: bv32, b: seq<bv8>, sb: bv32, m: nat, n: nat)
    requires m <= n && 4 * n <= |a| && 4 * n <= |b| && SameBlocks(a, b, m, n)
    requires Body(a, sa, m) != Body(b, sb, m)
    ensures Body(a, sa, n) != Body(b, sb, n)
    decreases n
  {
    hide Block, Scrambled, Stirred;
    if m < n {
      BodyStaysDifferent(a, sa, b, sb, m, n - 1);
      assert BlockAt(a, n - 1) == BlockAt(b, n - 1);
      var k := Scrambled(BlockAt(a, n - 1));
      if Stirred(Body(a, sa, n - 1), k) == Stirred(Body(b, sb, n - 1), k) {
        StirredInjective(Body(a, sa, n - 1), Body(b, sb, n - 1), k, k);
      }
    }
  }

  // Whether the keys agree outside the j-th group of four bytes, the tail being the last group.
  predicate AgreeOutside(a: seq<bv8>, b: seq<bv8>, j: nat)
    requires |a| == |b|
  {
    forall i :: 0 <= i < |a| && !(4 * j <= i < 4 * j + 4) ==> a[i] == b[i]
  }

  lemma Difference(a: seq<bv8>, b: seq<bv8>) returns (i: nat)
    requires |a| == |b| && a != b
    ensures i < |a| && a[i] != b[i]
  {
    i := 0;
    while i < |a| && a[i] == b[i]
      invariant i <= |a| && a[..i] == b[..i]
    {
      i := i + 1;
    }
    assert a[..|a|] == a && b[..|b|] == b;
  }

  lemma BlockDiffers(a: seq<bv8>, b: seq<bv8>, j: nat)
    requires |a| == |b| && a != b && AgreeOutside(a, b, j) && 4 * j + 4 <= |a|
    ensures Scrambled(BlockAt(a, j)) != Scrambled(BlockAt(b, j))
  {
    hide Scrambled, Block;
    var i := Difference(a, b);
    ScrambledUndone(BlockAt(a, j));
    ScrambledUndone(BlockAt(b, j));
    if BlockAt(a, j) == BlockAt(b, j) {
      BlockInjective(a[4 * j], a[4 * j + 1], a[4 * j + 2], a[4 * j + 3],
                     b[4 * j], b[4 * j + 1], b[4 * j + 2], b[4 * j + 3]);
    }
  }

  lemma TailDiffers(a: seq<bv8>, b: seq<bv8>)
    requires |a| == |b| && a != b && |a| % 4 != 0 && AgreeOutside(a, b, |a| / 4)
    ensures Scrambled(TailWord(Tail(a))) != Scrambled(TailWord(Tail(b)))
  {
    hide Scrambled, TailWord;
    ScrambledUndone(TailWord(Tail(a)));
    ScrambledUndone(TailWord(Tail(b)));
    if TailWord(Tail(a)) == TailWord(Tail(b)) {
      TailInjective(Tail(a), Tail(b));
      TailDetermines(a, b);
    }
  }

  lemma TailDetermines(a: seq<bv8>, b: seq<bv8>)
    requires |a| == |b| && AgreeOutside(a, b, |a| / 4) && Tail(a) == Tail(b)
    ensures a == b
  {
    var n := |a| / 4 * 4;
    assert a[..n] == b[..n];
    assert a == a[..n] + a[n..] && b == b[..n] + b[n..];
  }

  lemma MurmurDiffers(a: seq<bv8>, sa: bv32, b: seq<bv8>, sb: bv32)
    requires |a| == |b| < 0x8000_0000 && Absorbed(a, sa) != Absorbed(b, sb)
    ensures Murmur(a, sa) != Murmur(b, sb)
  {
    hide Absorbed, Mixed;
    MixedUndone(Absorbed(a, sa));
    MixedUndone(Absorbed(b, sb));
  }

  lemma TailKeepsDifference(ha: bv32, hb: bv32, ka: bv32, kb: bv32, l: bv32)
    requires (ha == hb && ka != kb) || (ha != hb && ka == kb)
    ensures Xor(Xor(ha, ka), l) != Xor(Xor(hb, kb), l)
  {
    if Xor(Xor(ha, ka), l) == Xor(Xor(hb, kb), l) {
      XorCancels(Xor(ha, ka), Xor(hb, kb), l, l);
      XorCancels(ha, hb, ka, kb);
    }
  }

  lemma NoTailKeepsDifference(ha: bv32, hb: bv32, l: bv32)
    requires ha != hb
    ensures Xor(ha, l) != Xor(hb, l)
  {
    if Xor(ha, l) == Xor(hb, l) {
      XorCancels(ha, hb, l, l);
    }
  }

  lemma AbsorbedDiffers(a: seq<bv8>, sa: bv32, b: seq<bv8>, sb: bv32)
    requires |a| == |b| < 0x8000_0000
    requires var n := |a| / 4;
             var sameTail := |a| % 4 == 0 || Tail(a) == Tail(b);
             || (Body(a, sa, n) != Body(b, sb, n) && sameTail)
             || (Body(a, sa, n) == Body(b, sb, n) && |a| % 4 != 0
                 && Scrambled(TailWord(Tail(a))) != Scrambled(TailWord(Tail(b))))
    ensures Absorbed(a, sa) != Absorbed(b, sb)
  {
    hide Xor, Body, Scrambled, TailWord, LengthWord;
    var n := |a| / 4;
    if |a| % 4 == 0 {
      NoTailKeepsDifference(Body(a, sa, n), Body(b, sb, n), LengthWord(|a|));
    } else {
      TailKeepsDifference(Body(a, sa, n), Body(b, sb, n), Scrambled(TailWord(Tail(a))), Scrambled(TailWord(Tail(b))),
                          LengthWord(|a|));
    }
  }

  /** Two keys of one length that differ within a single group of four bytes, or only in the tail, never get
      the same hash under one seed. */
  lemma OneGroupNeverCollides(a: seq<bv8>, b: seq<bv8>, seed: bv32, j: nat)
    requires |a| == |b| < 0x8000_0000 && a != b && AgreeOutside(a, b, j)
    ensures Murmur(a, seed) != Murmur(b, seed)
  {
    hide Stirred, Scrambled, TailWord, Murmur, Absorbed, Block;
    var n := |a| / 4;
    if j < n {
      BodySame(a, b, seed, j);
      BlockDiffers(a, b, j);
      var h := Body(a, seed, j);
      if Stirred(h, Scrambled(BlockAt(a, j))) == Stirred(h, Scrambled(BlockAt(b, j))) {
        StirredInjective(h, h, Scrambled(BlockAt(a, j)), Scrambled(BlockAt(b, j)));
      }
      BodyStaysDifferent(a, seed, b, seed, j + 1, n);
      assert Tail(a) == Tail(b);
    } else {
      BodySame(a, b, seed, n);
      SomeTail(a, b, j);
      TailDiffers(a, b);
    }
    AbsorbedDiffers(a, seed, b, seed);
    MurmurDiffers(a, seed, b, seed);
  }

  // A difference behind the blocks lies in the tail.
  lemma SomeTail(a: seq<bv8>, b: seq<bv8>, j: nat)
    requires |a| == |b| && a != b && AgreeOutside(a, b, j) && j >= |a| / 4
    ensures |a| % 4 != 0 && j == |a| / 4
  {
    var i := Difference(a, b);
  }

  /** One key never gets the same hash under two seeds. */
  lemma SeedsNeverCollide(key: seq<bv8>, s1: bv32, s2: bv32)
    requires |key| < 0x8000_0000 && s1 != s2
    ensures Murmur(key, s1) != Murmur(key, s2)
  {
    hide Stirred, Scrambled, TailWord, Murmur, Absorbed, Block;
    BodyStaysDifferent(key, s1, key, s2, 0, |key| / 4);
    AbsorbedDiffers(key, s1, key, s2);
    MurmurDiffers(key, s1, key, s2);
  }

  lemma FoldedInjective(h: bv32, g: bv32, x: bv8, y: bv8)
    requires Folded(h, x) == Folded(g, y)
    ensures x == y ==> h == g
    ensures h == g ==> x == y
  {
    hide TimesPrime, OverPrime, Xor;
    PrimeUndone(Xor(h, x as bv32));
    PrimeUndone(Xor(g, y as bv32));
    XorCancels(h, g, x as bv32, y as bv32);
    if h == g {
      WidenInjective(x, y);
    }
  }

  /** Two strings of one length that differ in a single byte never get the same FNV-1a hash. */
  lemma {:induction false} OneByteNeverCollides(s: seq<bv8>, t: seq<bv8>, j: nat)
    requires |s| == |t| && j < |s| && s[j] != t[j]
    requires forall i :: 0 <= i < |s| && i != j ==> s[i] == t[i]
    ensures Fnv(s) != Fnv(t)
    decreases |s|
  {
    hide Folded;
    var n := |s| - 1;
    if j < n {
      OneByteNeverCollides(s[..n], t[..n], j);
    } else {
      assert s[..n] == t[..n];
    }
    if Folded(Fnv(s[..n]), s[n]) == Folded(Fnv(t[..n]), t[n]) {
      FoldedInjective(Fnv(s[..n]), Fnv(t[..n]), s[n], t[n]);
    }
  }

  // ---------- What the hashes are ----------

  lemma XorTwice(a: bv32, l: bv32)
    ensures Xor(Xor(a, l), l) == a
  {
  }

  // The state before the final mix, without the length.
  function Peeled(hash: bv32, len: nat): bv32
    requires len < 0x8000_0000
  {
    Xor(Unmixed(hash), LengthWord(len))
  }

  lemma PeeledMurmur(key: seq<bv8>, seed: bv32)
    requires |key| < 0x8000_0000
    ensures var h := Body(key, seed, |key| / 4);
            Peeled(Murmur(key, seed), |key|)
            == if |key| % 4 == 0 then h else Xor(h, Scrambled(TailWord(Tail(key))))
  {
    hide Mixed, Unmixed, Xor, Scrambled, TailWord, LengthWord, Body;
    MixedUndone(Absorbed(key, seed));
    var h := Body(key, seed, |key| / 4);
    XorTwice(if |key| % 4 == 0 then h else Xor(h, Scrambled(TailWord(Tail(key)))), LengthWord(|key|));
  }

  /** The empty key's hash is the mixed seed. */
  lemma MurmurEmpty(seed: bv32)
    ensures Unmixed(Murmur([], seed)) == seed
  {
    hide Mixed, Unmixed;
    MixedUndone(Absorbed([], seed));
    assert Xor(seed, LengthWord(0)) == seed;
  }

  /** A further block of four bytes is scrambled and stirred into the state. */
  lemma MurmurBlock(key: seq<bv8>, b: seq<bv8>, seed: bv32)
    requires |key| % 4 == 0 && |b| == 4 && |key| + 4 < 0x8000_0000
    ensures Peeled(Murmur(key + b, seed), |key| + 4)
            == Stirred(Peeled(Murmur(key, seed), |key|), Scrambled(Block(b[0], b[1], b[2], b[3])))
  {
    hide Murmur, Peeled, Stirred, Scrambled, Block, TailWord;
    var n := |key| / 4;
    PeeledMurmur(key + b, seed);
    PeeledMurmur(key, seed);
    BodySame(key + b, key, seed, n);
    assert BlockAt(key + b, n) == Block(b[0], b[1], b[2], b[3]);
  }

  /** One to three further bytes are scrambled, the absent ones as zeros, and xored into the state. */
  lemma MurmurTail(key: seq<bv8>, b: seq<bv8>, seed: bv32)
    requires |key| % 4 == 0 && 0 < |b| < 4 && |key| + |b| < 0x8000_0000
    ensures Peeled(Murmur(key + b, seed), |key| + |b|)
            == Xor(Peeled(Murmur(key, seed), |key|),
                   Scrambled(Block(b[0], if |b| >= 2 then b[1] else 0, if |b| == 3 then b[2] else 0, 0)))
  {
    hide Murmur, Peeled, Scrambled, Block, TailBits, Xor, Stirred;
    var n := |key| / 4;
    PeeledMurmur(key + b, seed);
    PeeledMurmur(key, seed);
    BodySame(key + b, key, seed, n);
    assert Tail(key + b) == b;
    TailIsBlock(b[0], if |b| >= 2 then b[1] else 0, if |b| == 3 then b[2] else 0);
  }

  lemma TailIsBlock(t0: bv8, t1: bv8, t2: bv8)
    ensures TailBits(t0, t1, t2) == Block(t0, t1, t2, 0)
  {
  }

  /** Published values of the algorithm: "" with seed 1, "a" and "abcd" with seed 0. */
  lemma MurmurKnown()
    ensures Murmur([], 1) == 0x514e28b7
    ensures Murmur([0x61], 0) == 0x3c2569b2
    ensures Murmur([0x61, 0x62, 0x63, 0x64], 0) == 0x43ed676a
  {
    KnownTail();
    KnownBlock();
  }

  lemma KnownTail()
    ensures Murmur([0x61], 0) == 0x3c2569b2
  {
    hide Absorbed, Mixed, Body, Scrambled, TailWord;
    KnownAbsorbed();
    KnownParts();
  }

  lemma OneByteTail(b: bv8)
    ensures Tail([b]) == [b]
  {
  }

  lemma OneByteAbsorbed(b: bv8, seed: bv32)
    ensures Absorbed([b], seed) == Xor(Xor(seed, Scrambled(TailWord([b]))), LengthWord(1))
  {
    hide Scrambled, TailWord, LengthWord, Xor, Stirred, BlockAt, Tail;
    assert Tail([b]) == [b] by {
      OneByteTail(b);
    }
    assert Body([b], seed, 0) == seed;
  }

  lemma KnownAbsorbed()
    ensures Absorbed([0x61], 0) == 0x504ba9d4
  {
    hide Absorbed, Body, Scrambled, TailWord, LengthWord, Xor;
    OneByteAbsorbed(0x61, 0);
    KnownParts();
    KnownLength();
    KnownXor();
  }

  lemma KnownLength()
    ensures LengthWord(1) == 1
  {
  }

  lemma KnownXor()
    ensures Xor(Xor(0, 0x504ba9d5), 1) == 0x504ba9d4
  {
  }

  lemma KnownParts()
    ensures TailWord([0x61]) == 0x61
    ensures Scrambled(0x61) == 0x504ba9d5 && Mixed(0x504ba9d4) == 0x3c2569b2
  {
    assert TimesC1(0x61) == 0x87ef2bb1 && Rotl15(0x87ef2bb1) == 0x95d8c3f7;
    assert XorShift16(0x504ba9d4) == 0x504bf99f && TimesF1(0x504bf99f) == 0x42adcb75;
    assert XorShift13(0x42adcb75) == 0x42afde1b && TimesF2(0x42afde1b) == 0x3c255597;
  }

  lemma KnownBlock()
    ensures Murmur([0x61, 0x62, 0x63, 0x64], 0) == 0x43ed676a
  {
    var key: seq<bv8> := [0x61, 0x62, 0x63, 0x64];
    assert BlockAt(key, 0) == 0x64636261;
    assert Body(key, 0, 1) == Stirred(0, Scrambled(0x64636261));
  }

  /** A further byte is xored in before the multiplication, and "a" has its published value. */
  lemma FnvByte(s: seq<bv8>, x: bv8)
    ensures Fnv([]) == 0x811c9dc5
    ensures Fnv(s + [x]) == TimesPrime(Xor(Fnv(s), x as bv32))
    ensures Fnv([0x61]) == 0xe40c292c
  {
    hide TimesPrime, Xor;
    assert (s + [x])[..|s|] == s;
    var a: seq<bv8> := [0x61];
    assert a[..0] == [];
    KnownFold();
  }

  lemma KnownFold()
    ensures TimesPrime(Xor(0x811c9dc5, 0x61 as bv8 as bv32)) == 0xe40c292c
  {
    assert Xor(0x811c9dc5, 0x61) == 0x811c9da4;
  }
}
