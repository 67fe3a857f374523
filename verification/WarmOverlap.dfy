/** What the warmer's zero-fill does to a page that the writer has loaded and written meanwhile: a step that the
    protocol leaves out. */
module WarmOverlap {
  import opened Layout
  import opened Memory
  import opened Protocol
  import opened ProtocolSafety
  import opened ProtocolProofs
  import opened ProtocolTheorems
  import opened Recovery
  import opened ResumeTheorems

  // The last store of warmPageIntoSlot, on any page.
  function ZeroFill(P: PageSize, p: nat): Event {
    Plain(p, 0, WarmStores(P)[5])
  }

  /** On a page that the writer has already written to, the zero-fill erases every published frame. */
  lemma OverlapErases(c: Config, states: seq<State>, steps: seq<Step>, i: nat, n: nat)
    requires Run(c, states, steps) && i < |states| && n < |states[i].pub|
    ensures var s := states[i];
            var p := s.pub[n];
            && FrameInMemory(c, s, p) == p.bytes
            && FrameInMemory(c, s.(log := s.log + [ZeroFill(c.P, p.page)]), p) == Zeros(|p.bytes|) != p.bytes
  {
    hide Run, Inv, LE, FromLE, FramePhysicalLength, FrameInMemory;
    FrameLies(c, states, steps, i, n);
    PublishedIsForever(c, states, steps, i, i, n);
    PublishedStream(c, states, steps, i, n);
    var s := states[i];
    var p := s.pub[n];
    NotZeros(p.bytes);
    FilledWithZeros(c, s.log, p.page, p.off, |p.bytes|);
    InMemory(c, s.(log := s.log + [ZeroFill(c.P, p.page)]), p);
  }

  lemma InMemory(c: Config, s: State, p: Pub)
    ensures FrameInMemory(c, s, p) == Image(c.base, s.log, p.page, p.off, |p.bytes|)
  {
  }

  lemma NotZeros(bytes: Bytes)
    requires |bytes| >= 32 && LengthOf(bytes) == |bytes|
    ensures bytes != Zeros(|bytes|)
  {
    if bytes == Zeros(|bytes|) {
      FromLEZero(bytes[0..4]);
    }
  }

  lemma FilledWithZeros(c: Config, log: Log, p: nat, lo: nat, n: nat)
    requires 64 <= lo && lo + n <= c.P
    ensures Image(c.base, log + [ZeroFill(c.P, p)], p, lo, n) == Zeros(n)
  {
    hide LE, Val;
    var img := Image(c.base, log + [ZeroFill(c.P, p)], p, lo, n);
    forall a | 0 <= a < n
      ensures img[a] == 0
    {
      ValAppend(c.base, log, ZeroFill(c.P, p), p, lo + a);
    }
  }

  /** It keeps a page exactly if nothing was stored behind the page's header. */
  lemma ZeroFillKeepsIff(P: PageSize, img: Bytes)
    requires |img| == P
    ensures Put(img, WarmStores(P)[5]) == img <==> !Touched(img)
  {
    hide LE;
    var r := Put(img, WarmStores(P)[5]);
    forall a | 0 <= a < P
      ensures r[a] == if a < 64 then img[a] else 0
    {
      PutAt(img, WarmStores(P)[5], a);
    }
    if !Touched(img) {
      assert forall a :: 0 <= a < P ==> r[a] == img[a];
    }
  }
}
