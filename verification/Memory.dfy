/** Mapped page files seen through the C++ memory model.

    Memory is a base image plus a log of the stores made since, in modification order.
    A thread's view is the set of stores that happen before its next step. A plain read
    of a byte returns its latest value when every store to that byte is in the reader's
    view, and any value at all otherwise: the read races. A word load never tears, and
    returns the value of any store not older than those in the view. */
module Memory {
  import opened Layout

  type Disk = map<nat, Bytes>

  // A release store carries in `rel` every store that happens before it.
  datatype Event = Event(page: nat, off: nat, bytes: Bytes, rel: set<nat>)
  {
    ghost predicate Covers(p: nat, a: nat) {
      page == p && off <= a < off + |bytes|
    }

    ghost predicate Avoids(p: nat, lo: nat, hi: nat) {
      page != p || off + |bytes| <= lo || hi <= off
    }

    // Whatever this store writes at or above address a is zero.
    ghost predicate ZeroFrom(a: nat) {
      forall i :: 0 <= i < |bytes| && off + i >= a ==> bytes[i] == 0
    }

    // Whatever this store writes in [a, a + n) is zero.
    ghost predicate ZeroOn(a: nat, n: nat) {
      forall i :: 0 <= i < |bytes| && a <= off + i < a + n ==> bytes[i] == 0
    }
  }

  type Log = seq<Event>

  ghost function ByteOf(base: Disk, p: nat, a: nat): byte {
    if p in base && a < |base[p]| then base[p][a] else 0
  }

  /** The latest value of a byte. */
  ghost function Val(base: Disk, log: Log, p: nat, a: nat): byte
    decreases |log|
  {
    if log == [] then ByteOf(base, p, a)
    else
      var e := log[|log| - 1];
      if e.Covers(p, a) then e.bytes[a - e.off] else Val(base, log[..|log| - 1], p, a)
  }

  /** The latest contents of n bytes from address lo on. */
  ghost function Image(base: Disk, log: Log, p: nat, lo: nat, n: nat): (s: Bytes)
    ensures |s| == n
    ensures forall i :: 0 <= i < n ==> s[i] == Val(base, log, p, lo + i)
  {
    seq<byte>(n, i requires 0 <= i < n => Val(base, log, p, lo + i))
  }

  ghost predicate PlainRead(base: Disk, log: Log, view: set<nat>, p: nat, a: nat, v: byte) {
    (forall k :: 0 <= k < |log| && log[k].Covers(p, a) ==> k in view) ==> v == Val(base, log, p, a)
  }

  // src is the index of the store whose value is loaded, -1 for the base image.
  ghost predicate WordLoad(base: Disk, log: Log, view: set<nat>, p: nat, a: nat, n: nat, src: int, word: Bytes) {
    && |word| == n
    && -1 <= src < |log|
    && (forall k :: src < k < |log| && k in view ==> log[k].Avoids(p, a, a + n))
    && (if src == -1 then
          forall i :: 0 <= i < n ==> word[i] == ByteOf(base, p, a + i)
        else
          && log[src].page == p && log[src].off <= a && a + n <= log[src].off + |log[src].bytes|
          && word == log[src].bytes[a - log[src].off..a - log[src].off + n])
  }

  ghost function Acquired(log: Log, view: set<nat>, src: int): set<nat>
    requires -1 <= src < |log|
  {
    if src == -1 then view else view + log[src].rel
  }

  /** The model hides no race: a plain read of a byte to which the reader's view lacks a store may return anything, and
      a word load may return any store that the view does not make too old. */
  lemma RacesAreVisible(base: Disk, log: Log, view: set<nat>, p: nat, a: nat, n: nat, k: nat, v: byte)
    requires k < |log| && log[k].page == p && log[k].off <= a && a + n <= log[k].off + |log[k].bytes| && n > 0
    ensures k !in view ==> PlainRead(base, log, view, p, a, v)
    ensures (forall l :: l in view && k < l < |log| ==> log[l].Avoids(p, a, a + n)) ==>
      WordLoad(base, log, view, p, a, n, k, log[k].bytes[a - log[k].off..a - log[k].off + n])
  {
    assert log[k].Covers(p, a);
  }

  /** A thread that has seen every store to a word loads its latest value, whichever store it is offered. */
  lemma {:induction false} WordIsLatest(base: Disk, log: Log, view: set<nat>, p: nat, a: nat, n: nat, src: int,
                                        word: Bytes)
    requires WordLoad(base, log, view, p, a, n, src, word)
    requires forall k :: 0 <= k < |log| && !log[k].Avoids(p, a, a + n) ==> k in view
    ensures word == Image(base, log, p, a, n)
    decreases |log|
  {
    if log != [] {
      var last := |log| - 1;
      var e := log[last];
      assert log == log[..last] + [e];
      if src < last {
        ImageAvoids(base, log[..last], e, p, a, n);
        WordIsLatest(base, log[..last], view, p, a, n, src, word);
      }
    }
  }

  lemma ValAppend(base: Disk, log: Log, e: Event, p: nat, a: nat)
    ensures Val(base, log + [e], p, a) == if e.Covers(p, a) then e.bytes[a - e.off] else Val(base, log, p, a)
  {
    assert (log + [e])[..|log|] == log;
  }

  lemma ImageSlice(base: Disk, log: Log, p: nat, lo: nat, n: nat, i: nat, j: nat)
    requires i <= j <= n
    ensures Image(base, log, p, lo, n)[i..j] == Image(base, log, p, lo + i, j - i)
  {
    hide Val;
    var a, b := Image(base, log, p, lo, n)[i..j], Image(base, log, p, lo + i, j - i);
    forall x | 0 <= x < j - i
      ensures a[x] == b[x]
    {
      assert a[x] == Val(base, log, p, lo + (i + x));
      assert b[x] == Val(base, log, p, (lo + i) + x);
    }
  }

  /** A store that misses a range leaves its contents. */
  lemma ImageAvoids(base: Disk, log: Log, e: Event, p: nat, lo: nat, n: nat)
    requires e.Avoids(p, lo, lo + n)
    ensures Image(base, log + [e], p, lo, n) == Image(base, log, p, lo, n)
  {
    forall i | 0 <= i < n
      ensures Image(base, log + [e], p, lo, n)[i] == Image(base, log, p, lo, n)[i]
    {
      ValAppend(base, log, e, p, lo + i);
    }
  }

  /** A store inside a range updates its contents in place. */
  lemma ImagePut(base: Disk, log: Log, e: Event, p: nat, lo: nat, n: nat)
    requires e.page == p && lo <= e.off && e.off + |e.bytes| <= lo + n
    ensures Image(base, log + [e], p, lo, n) == Put(Image(base, log, p, lo, n), Store(e.off - lo, e.bytes))
  {
    var before, after := Image(base, log, p, lo, n), Image(base, log + [e], p, lo, n);
    var s := Store(e.off - lo, e.bytes);
    forall i | 0 <= i < n
      ensures after[i] == Put(before, s)[i]
    {
      ValAppend(base, log, e, p, lo + i);
      PutAt(before, s, i);
    }
  }

  /** Where the base image and every store are zero, memory is zero. */
  lemma {:induction false} ValZero(base: Disk, log: Log, p: nat, a: nat)
    requires ByteOf(base, p, a) == 0
    requires forall k :: 0 <= k < |log| && log[k].page == p ==> log[k].ZeroOn(a, 1)
    ensures Val(base, log, p, a) == 0
    decreases |log|
  {
    if log == [] {
    } else {
      var n := |log| - 1;
      var e := log[n];
      if e.Covers(p, a) {
        assert e.ZeroOn(a, 1);
        assert e.bytes[a - e.off] == 0;
      } else {
        ValZero(base, log[..n], p, a);
      }
    }
  }

  /** A word load of a range on which the base and every store but one are zero returns zero,
      unless it returns that one store. */
  lemma WordLoadZero(base: Disk, log: Log, view: set<nat>, p: nat, a: nat, n: nat, src: int, word: Bytes)
    requires WordLoad(base, log, view, p, a, n, src, word)
    requires src == -1 ==> forall x :: a <= x < a + n ==> ByteOf(base, p, x) == 0
    requires src >= 0 ==> log[src].ZeroOn(a, n)
    ensures FromLE(word) == 0
  {
    if src >= 0 {
      var e := log[src];
      forall i | 0 <= i < n
        ensures word[i] == 0
      {
        assert word[i] == e.bytes[a - e.off + i];
      }
    }
    assert forall i :: 0 <= i < |word| ==> word[i] == 0;
    FromLEZero(word);
  }
}
