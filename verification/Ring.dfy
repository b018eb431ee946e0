/** The ring buffer of Preparation/PriducerConsumer.java (lines 45-47 and 54-56): `lo` is
    the slot of the oldest item and the items follow one another around the array. */
module Ring {

  /** The slot `i` steps after slot 0, at most once around the ring. */
  function Wrap(i: nat, n: nat): nat
    requires i < 2 * n
  {
    if i < n then i else i - n
  }

  /** The index update of the source: one step around the ring. */
  function Successor(i: nat, n: nat): (r: nat)
    requires i < n
    ensures r == Wrap(i + 1, n)
  {
    assert i + 1 == n ==> n % n == 0;
    (i + 1) % n
  }

  /** `contents` sits in `buf`, in order, from slot `lo` on. */
  ghost predicate Holds(buf: seq<int>, lo: int, contents: seq<int>) {
    && 0 <= lo < |buf|
    && |contents| <= |buf|
    && forall j {:trigger contents[j]} :: 0 <= j < |contents| ==> contents[j] == buf[Wrap(lo + j, |buf|)]
  }

  /** Writing behind the last item of a ring that is not full disturbs no stored item. */
  lemma StoreHolds(buf: seq<int>, lo: int, contents: seq<int>, x: int)
    requires Holds(buf, lo, contents) && |contents| < |buf|
    ensures Holds(buf[Wrap(lo + |contents|, |buf|) := x], lo, contents + [x])
  {
    assert forall j :: 0 <= j < |contents| ==> (contents + [x])[j] == contents[j];
  }

  /** Reading slot `lo` of a ring that is not empty yields the oldest item, and the others
      sit from the next slot on. */
  lemma LoadHolds(buf: seq<int>, lo: int, contents: seq<int>)
    requires Holds(buf, lo, contents) && 0 < |contents|
    ensures buf[lo] == contents[0]
    ensures Holds(buf, Wrap(lo + 1, |buf|), contents[1..])
  {
    assert forall j :: 0 <= j < |contents| - 1 ==> contents[1..][j] == contents[j + 1];
  }

  // The three statements of an insertion, and of a removal, are separate steps: between the
  // access to the slot and the update of the index, the index lags behind.

  function First(lo: nat, loLags: bool, n: nat): nat
    requires lo < n
  {
    if loLags then Wrap(lo + 1, n) else lo
  }

  function Contents(inserted: seq<int>, removed: seq<int>): seq<int>
    requires removed <= inserted
  {
    inserted[|removed|..]
  }

  /** The ring holds exactly the items inserted and not yet removed, in order; `lo` names the
      oldest and `hi` the slot behind the youngest, unless they lag by one. */
  ghost predicate Agrees(buf: seq<int>, lo: int, hi: int, loLags: bool, hiLags: bool,
                         inserted: seq<int>, removed: seq<int>)
  {
    && 0 <= lo < |buf| && 0 <= hi < |buf|
    && removed <= inserted
    && Holds(buf, First(lo, loLags, |buf|), Contents(inserted, removed))
    && First(hi, hiLags, |buf|) == Wrap(First(lo, loLags, |buf|) + |inserted| - |removed|, |buf|)
  }

  lemma AgreesAfterStore(buf: seq<int>, lo: int, hi: int, inserted: seq<int>, removed: seq<int>, x: int)
    requires Agrees(buf, lo, hi, false, false, inserted, removed)
    requires |inserted| - |removed| < |buf|
    ensures Agrees(buf[hi := x], lo, hi, false, true, inserted + [x], removed)
  {
    StoreHolds(buf, lo, Contents(inserted, removed), x);
    assert Contents(inserted + [x], removed) == Contents(inserted, removed) + [x];
  }

  lemma AgreesAfterLoad(buf: seq<int>, lo: int, hi: int, inserted: seq<int>, removed: seq<int>)
    requires Agrees(buf, lo, hi, false, false, inserted, removed)
    requires |removed| < |inserted|
    ensures buf[lo] == inserted[|removed|]
    ensures Agrees(buf, lo, hi, true, false, inserted, removed + [buf[lo]])
  {
    LoadHolds(buf, lo, Contents(inserted, removed));
    assert Contents(inserted, removed + [buf[lo]]) == Contents(inserted, removed)[1..];
  }

  lemma AgreesAfterAdvanceHi(buf: seq<int>, lo: int, hi: int, inserted: seq<int>, removed: seq<int>)
    requires Agrees(buf, lo, hi, false, true, inserted, removed)
    ensures Agrees(buf, lo, Successor(hi, |buf|), false, false, inserted, removed)
  {
  }

  lemma AgreesAfterAdvanceLo(buf: seq<int>, lo: int, hi: int, inserted: seq<int>, removed: seq<int>)
    requires Agrees(buf, lo, hi, true, false, inserted, removed)
    ensures Agrees(buf, Successor(lo, |buf|), hi, false, false, inserted, removed)
  {
  }
}
