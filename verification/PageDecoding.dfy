/** Decoding a page of a running or interrupted session gives exactly the frames published on it. */
module PageDecoding {
  import opened Layout
  import opened Memory
  import opened Protocol
  import opened ProtocolSafety
  import opened ProtocolProofs
  import opened ProtocolTheorems
  import opened Recovery

  // The frames from the n-th on that lie on page p.
  ghost function FramesOn(pub: seq<Pub>, p: nat, n: nat): seq<Bytes>
    requires n <= |pub|
    decreases |pub| - n
  {
    if n == |pub| then []
    else (if pub[n].page == p then [pub[n].bytes] else []) + FramesOn(pub, p, n + 1)
  }

  lemma {:induction false} NoneAfter(c: Config, pub: seq<Pub>, p: nat, n: nat, m: nat)
    requires ChainOK(c, pub) && n <= m <= |pub| && Pos(c, pub, n).0 > p
    ensures FramesOn(pub, p, m) == []
    decreases |pub| - m
  {
    hide LE, FromLE, HeaderBytes;
    if m < |pub| {
      ChainAt(c, pub, m);
      PageOrder(c, pub, n, m);
      NoneAfter(c, pub, p, n, m + 1);
    }
  }

  lemma {:induction false} PageOrder(c: Config, pub: seq<Pub>, n: nat, m: nat)
    requires ChainOK(c, pub) && n <= m <= |pub|
    ensures Pos(c, pub, n).0 <= Pos(c, pub, m).0
    decreases m
  {
    hide LE, FromLE, HeaderBytes;
    if n < m {
      PageOrder(c, pub, n, m - 1);
      ChainAt(c, pub, m - 1);
    }
  }

  lemma {:induction false} NoneBefore(c: Config, pub: seq<Pub>, p: nat, n: nat, m: nat)
    requires ChainOK(c, pub) && n <= m <= |pub|
    requires forall i :: n <= i < m ==> pub[i].page < p
    ensures FramesOn(pub, p, n) == FramesOn(pub, p, m)
    decreases m - n
  {
    if n < m {
      NoneBefore(c, pub, p, n + 1, m);
    }
  }

  // Every page up to the frontier has a first position in the stream.
  lemma {:induction false} FirstOnPage(c: Config, pub: seq<Pub>, p: nat, n: nat) returns (m: nat)
    requires ChainOK(c, pub) && n <= |pub| && c.page0 <= p <= Pos(c, pub, n).0
    ensures m <= n && Pos(c, pub, m) == (p, 64)
    ensures forall i :: 0 <= i < m ==> pub[i].page < p
    decreases n
  {
    hide LE, FromLE, HeaderBytes;
    if n == 0 {
      m := 0;
    } else {
      ChainAt(c, pub, n - 1);
      if p <= pub[n - 1].page {
        m := FirstOnPage(c, pub, p, n - 1);
      } else {
        m := n;
        forall i | 0 <= i < n
          ensures pub[i].page < p
        {
          PageOrder(c, pub, i, n - 1);
          ChainAt(c, pub, i);
        }
      }
    }
  }

  // A published frame as it stands in the image of its page.
  lemma FrameInPage(c: Config, s: State, n: nat)
    requires ChainOK(c, s.pub) && SafeOK(c.base, s.log, s.pub) && n < |s.pub|
    ensures var p := s.pub[n];
            var img := Image(c.base, s.log, p.page, 0, c.P);
            && 32 <= |p.bytes| && p.off + FramePhysicalLength(|p.bytes|) <= c.P
            && img[p.off..p.off + |p.bytes|] == p.bytes
            && FromLE(img[p.off..p.off + 4]) == |p.bytes|
            && (TypeOf(p.bytes) == PAGE_END <==> p.kind.End?)
  {
    hide LE, FromLE, Val, HeaderBytes;
    var p := s.pub[n];
    var img := Image(c.base, s.log, p.page, 0, c.P);
    assert PubOK(c, s.pub, n) && FrameSafe(c.base, s.log, p);
    FrameKind(c, s.pub, n);
    ImageSlice(c.base, s.log, p.page, 0, c.P, p.off, p.off + |p.bytes|);
    SliceOfSlice(img, p.off, p.off + |p.bytes|, p.off, p.off + 4);
    assert p.bytes[0..4] == img[p.off..p.off + 4];
  }

  // The length word at the frontier is zero.
  lemma FrontierLength(c: Config, s: State)
    requires Inv(c, s)
    ensures var (p, a) := Pos(c, s.pub, |s.pub|);
            a + 32 <= c.P ==> FromLE(Image(c.base, s.log, p, 0, c.P)[a..a + 4]) == 0
  {
    hide LE, FromLE, HeadersOK, MakingOK, ViewOK, ReadersOK, SlotOK, SafeOK;
    var (p, a) := Pos(c, s.pub, |s.pub|);
    PosBound(c, s.pub, |s.pub|);
    if a + 32 <= c.P {
      var word := Image(c.base, s.log, p, 0, c.P)[a..a + 4];
      forall i | 0 <= i < 4
        ensures word[i] == 0
      {
        FrontierByte(c, s, i);
      }
      FromLEZero(word);
    }
  }

  lemma FrontierByte(c: Config, s: State, i: nat)
    requires ValidConfig(c) && ChainOK(c, s.pub) && FrontierOK(c, s.pub, s.w) && LogOK(c, s.w, s.top, s.log) && i < 4
    ensures var (p, a) := Pos(c, s.pub, |s.pub|); Val(c.base, s.log, p, a + i) == 0
  {
    hide ChainOK;
    var (p, a) := Pos(c, s.pub, |s.pub|);
    PosBound(c, s.pub, |s.pub|);
    BaseZero(c, p, a + i);
    forall k | 0 <= k < |s.log| && s.log[k].page == p
      ensures s.log[k].ZeroOn(a + i, 1)
    {
      assert EventOK(c, s.w, s.top, s.log[k]);
      assert s.log[k].ZeroOn(a, 4);
    }
    ValZero(c.base, s.log, p, a + i);
  }

  lemma StrideCovers(len: nat)
    ensures len <= FramePhysicalLength(len)
  {
  }

  // The walk at a published frame.
  lemma WalkAt(c: Config, s: State, n: nat)
    requires ChainOK(c, s.pub) && SafeOK(c.base, s.log, s.pub) && n < |s.pub|
    ensures var (p, a) := Pos(c, s.pub, n);
            var f := s.pub[n];
            && f.page == p && f.off == a
            && Walk(c.P, Image(c.base, s.log, p, 0, c.P), a)
               == [f.bytes] + if f.kind.End? then []
                              else Walk(c.P, Image(c.base, s.log, p, 0, c.P), a + FramePhysicalLength(|f.bytes|))
  {
    hide LE, FromLE, Val, Walk, ChainOK, SafeOK, Image, FramePhysicalLength, TypeOf;
    ChainAt(c, s.pub, n);
    FrameInPage(c, s, n);
    StrideCovers(|s.pub[n].bytes|);
    WalkFrame(c.P, Image(c.base, s.log, s.pub[n].page, 0, c.P), s.pub[n].off, s.pub[n].bytes);
  }

  lemma {:induction false} WalkFrom(c: Config, s: State, n: nat)
    requires Inv(c, s) && n <= |s.pub|
    ensures var (p, a) := Pos(c, s.pub, n);
            Walk(c.P, Image(c.base, s.log, p, 0, c.P), a) == FramesOn(s.pub, p, n)
    decreases |s.pub| - n
  {
    hide LE, FromLE, Val, Walk, ValidConfig, WriterOK, LogOK, SlotOK, FrontierOK, HeadersOK, MakingOK, RotationOK,
      ViewOK, ReadersOK, WarmerOK, ChainOK, SafeOK, Image, FramePhysicalLength;
    var (p, a) := Pos(c, s.pub, n);
    if n == |s.pub| {
      FrontierLength(c, s);
      WalkStep(c.P, Image(c.base, s.log, p, 0, c.P), a);
    } else {
      WalkAt(c, s, n);
      if s.pub[n].kind.End? {
        NoneAfter(c, s.pub, p, n + 1, n + 1);
      } else {
        WalkFrom(c, s, n + 1);
      }
    }
  }

  /** A reader that turns the page and has seen every store to the next one makes the checks of Page::load on its
      latest bytes: it goes on in the first slot if they pass, and faults if not or if there is no header yet. */
  lemma TurnChecks(c: Config, s: State, r: Reader, prefix: Bytes, src: int, lfp: Bytes, r': Reader)
    requires ReaderNext(c, s, TurnPage(prefix, src, lfp), r, r')
    requires forall k :: 0 <= k < |s.log| && s.log[k].page == r.page + 1 ==> k in r.view
    ensures var img := Image(c.base, s.log, r.page + 1, 0, c.P);
            r' == if LfpOf(img) != 0 && WordsRight(c.P, img) then r.(page := r.page + 1, off := 64, phase := Polling)
                  else r.(phase := Fault)
  {
    hide LE, FromLE, Val, HeaderPrefix, WordsRight;
    var p := r.page + 1;
    var img := Image(c.base, s.log, p, 0, c.P);
    WordIsLatest(c.base, s.log, r.view, p, 16, 8, src, lfp);
    ImageSlice(c.base, s.log, p, 0, c.P, 16, 24);
    ImageSlice(c.base, s.log, p, 0, c.P, 0, 12);
    PlainLatest(c, s, r.view, p, 0, prefix);
    AcceptedIff(c.P, img);
  }

  /** A reader that has seen every store to a page is offered a frame exactly if length and type are both there. */
  lemma LoadChecks(c: Config, s: State, r: Reader, half: Bytes, r': Reader)
    requires ReaderNext(c, s, LoadType(half), r, r')
    requires forall k :: 0 <= k < |s.log| && s.log[k].page == r.page ==> k in r.view
    ensures var msgType := FromLE(Image(c.base, s.log, r.page, r.off + 4, 2));
            r' == r.(phase := if r.phase.len == 0 || msgType == 0 then Polling else Holding(r.phase.len, msgType, []))
  {
    hide LE, FromLE, Val;
    PlainLatest(c, s, r.view, r.page, r.off + 4, half);
  }

  lemma PlainLatest(c: Config, s: State, view: set<nat>, p: nat, a: nat, bytes: Bytes)
    requires ReadsBytes(c, s, view, p, a, bytes)
    requires forall k :: 0 <= k < |s.log| && s.log[k].page == p ==> k in view
    ensures bytes == Image(c.base, s.log, p, a, |bytes|)
  {
    hide Val;
    forall i | 0 <= i < |bytes|
      ensures bytes[i] == Val(c.base, s.log, p, a + i)
    {
      assert PlainRead(c.base, s.log, view, p, a + i, bytes[i]);
    }
  }

  /** At any moment of any run, walking a page yields exactly the frames published on it, in order. */
  lemma PageDecodes(c: Config, states: seq<State>, steps: seq<Step>, i: nat, p: nat)
    requires Run(c, states, steps) && i < |states|
    requires c.page0 <= p <= states[i].w.page
    ensures var s := states[i];
            Walk(c.P, Image(c.base, s.log, p, 0, c.P), 64) == FramesOn(s.pub, p, 0)
  {
    Reachable(c, states, steps, i);
    PageDecodesIn(c, states[i], p);
  }

  lemma PageDecodesIn(c: Config, s: State, p: nat)
    requires Inv(c, s) && c.page0 <= p <= s.w.page
    ensures Walk(c.P, Image(c.base, s.log, p, 0, c.P), 64) == FramesOn(s.pub, p, 0)
  {
    hide LE, FromLE, Val, Walk, ValidConfig, LogOK, SlotOK, HeadersOK, MakingOK, RotationOK, ViewOK, ReadersOK,
      WarmerOK, ChainOK, SafeOK;
    var m := FirstOnPage(c, s.pub, p, |s.pub|);
    NoneBefore(c, s.pub, p, 0, m);
    WalkFrom(c, s, m);
  }
}
