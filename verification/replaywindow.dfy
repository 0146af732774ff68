/**
 The sliding replay window shared by the SRTP and SRTCP handlers
 (srtpcryptohandler.cpp, ReplayCheck, and the two AddReplayIndex methods).

 The code keeps a 64-bit map and the index its bit 0 stands for.  What it means
 is a plain set of accepted indices: bit k is set exactly when index top - k was
 accepted.  The code shifts the map when it checks an index and moves the top
 only when it commits the index, so the meaning is stated for a check followed
 by its commit, and a last lemma says what a check alone does to it.
 */
module ReplayWindow {
  import opened Machine

  const KReplayWindowSize := 64

  /** The meaning of the bit map: the accepted indices, as far back as w. */
  ghost predicate Represents(bitmap: Word64, w: int, top: int, seen: set<int>)
    requires w <= 64
  {
    && (forall i | i in seen :: i <= top)
    && (forall k | 0 <= k < w :: bitmap[k] <==> top - k in seen)
  }

  /** The indices a map of its own stands for, whatever brought it about. */
  function Denoted(bitmap: Word64, top: int): set<int> {
    set k | 0 <= k < 64 && bitmap[k] :: top - k
  }

  lemma DenotedIsRepresented(bitmap: Word64, w: int, top: int)
    requires w <= 64
    ensures Represents(bitmap, w, top, Denoted(bitmap, top))
  {
    forall k | 0 <= k < w ensures bitmap[k] <==> top - k in Denoted(bitmap, top) {
      if top - k in Denoted(bitmap, top) {
        var j :| 0 <= j < 64 && bitmap[j] && top - j == top - k;
      }
    }
  }

  /** No accepted index within the window is missing from the map, so none is passed again. */
  ghost predicate Covers(bitmap: Word64, w: int, top: int, seen: set<int>)
    requires w <= 64
  {
    forall k | 0 <= k < w && top - k in seen :: bitmap[k]
  }

  // ----- The two halves of a window update, as functions of the map -----

  predicate Passes(bitmap: Word64, w: int, delta: int)
    requires w <= 64
  {
    delta > 0 || (-delta < w && !bitmap[-delta])
  }

  function Checked(bitmap: Word64, w: int, delta: int): Word64
    requires w <= 64
  {
    if delta <= 0 then bitmap
    else if delta < w then SetBit(ShiftLeft(bitmap, delta), 0)
    else ONE
  }

  function Committed(bitmap: Word64, delta: int): Word64
    requires -64 < delta
  {
    if delta > 0 then bitmap else SetBit(bitmap, -delta)
  }

  lemma PassesOrStays(bitmap: Word64, w: int, delta: int)
    requires w <= 64
    ensures if Passes(bitmap, w, delta) then -64 < delta else Checked(bitmap, w, delta) == bitmap
  {
  }

  /** A check passes exactly the indices that are new and not too old, and a
      check with its commit adds exactly the checked index to the set. */
  lemma CheckThenCommit(bitmap: Word64, w: int, top: int, seen: set<int>, delta: int)
    requires w <= 64 && Represents(bitmap, w, top, seen)
    ensures Passes(bitmap, w, delta) <==> delta > 0 || (-delta < w && top + delta !in seen)
    ensures Passes(bitmap, w, delta) ==>
              -64 < delta &&
              Represents(Committed(Checked(bitmap, w, delta), delta), w,
                         if delta > 0 then top + delta else top, seen + {top + delta})
    ensures !Passes(bitmap, w, delta) ==> Checked(bitmap, w, delta) == bitmap
  {
    hide Represents, Passes, Checked, Committed, SetBit, ShiftLeft;
    if delta > 0 {
      AheadChecked(bitmap, w, top, seen, delta);
    } else {
      BehindChecked(bitmap, w, top, seen, delta);
    }
  }

  lemma AheadChecked(bitmap: Word64, w: int, top: int, seen: set<int>, delta: int)
    requires w <= 64 && delta > 0 && Represents(bitmap, w, top, seen)
    ensures Passes(bitmap, w, delta)
    ensures Represents(Committed(Checked(bitmap, w, delta), delta), w, top + delta, seen + {top + delta})
  {
    var after, top' := Checked(bitmap, w, delta), top + delta;
    forall k | 0 <= k < w ensures after[k] <==> top' - k in seen + {top'} {
      if delta <= k {
        assert bitmap[k - delta] <==> top - (k - delta) in seen;
      }
    }
  }

  lemma BehindChecked(bitmap: Word64, w: int, top: int, seen: set<int>, delta: int)
    requires w <= 64 && delta <= 0 && Represents(bitmap, w, top, seen)
    ensures Passes(bitmap, w, delta) <==> -delta < w && top + delta !in seen
    ensures Passes(bitmap, w, delta) ==>
              -64 < delta && Represents(Committed(Checked(bitmap, w, delta), delta), w, top, seen + {top + delta})
    ensures Checked(bitmap, w, delta) == bitmap
  {
    if -delta < w {
      assert bitmap[-delta] <==> top - -delta in seen;
    }
  }

  // ----- Any sequence of check/commit pairs -----

  /** The state the code keeps. */
  datatype Window = Window(bitmap: Word64, top: int)

  /** One index: checked and, if it passes, committed. */
  function Offer(s: Window, w: int, index: int): Window
    requires w <= 64
  {
    var delta := index - s.top;
    if Passes(s.bitmap, w, delta) then
      Window(Committed(Checked(s.bitmap, w, delta), delta), if delta > 0 then index else s.top)
    else s
  }

  function OfferAll(s: Window, w: int, indices: seq<int>): Window
    requires w <= 64
    decreases |indices|
  {
    if indices == [] then s
    else Offer(OfferAll(s, w, indices[..|indices| - 1]), w, indices[|indices| - 1])
  }

  /** What the same indices do to a receiver that simply remembers every index it took. */
  datatype Memory = Memory(seen: set<int>, top: int)

  function Remember(m: Memory, w: int, index: int): Memory {
    if index > m.top then Memory(m.seen + {index}, index)
    else if index > m.top - w && index !in m.seen then Memory(m.seen + {index}, m.top)
    else m
  }

  function RememberAll(m: Memory, w: int, indices: seq<int>): Memory
    decreases |indices|
  {
    if indices == [] then m
    else Remember(RememberAll(m, w, indices[..|indices| - 1]), w, indices[|indices| - 1])
  }

  const START := Window(ZERO, 0)
  const NOTHING := Memory({}, 0)

  /** From the all-zero start state, after any sequence of indices, the 64-bit map
      and its top are the plain set of accepted indices, for every window size up to 64. */
  lemma {:induction false} WindowRefinesMemory(w: int, indices: seq<int>)
    requires w <= 64
    ensures var s, m := OfferAll(START, w, indices), RememberAll(NOTHING, w, indices);
            s.top == m.top && Represents(s.bitmap, w, m.top, m.seen)
    decreases |indices|
  {
    hide Offer, Remember, Represents;
    if indices == [] {
      StartIsNothing(w);
    } else {
      WindowRefinesMemory(w, indices[..|indices| - 1]);
      OfferIsRemember(w, OfferAll(START, w, indices[..|indices| - 1]), RememberAll(NOTHING, w, indices[..|indices| - 1]),
                      indices[|indices| - 1]);
    }
  }

  lemma StartIsNothing(w: int)
    requires w <= 64
    ensures Represents(START.bitmap, w, NOTHING.top, NOTHING.seen)
  {
  }

  lemma OfferIsRemember(w: int, s: Window, m: Memory, index: int)
    requires w <= 64 && s.top == m.top && Represents(s.bitmap, w, m.top, m.seen)
    ensures var s', m' := Offer(s, w, index), Remember(m, w, index);
            s'.top == m'.top && Represents(s'.bitmap, w, m'.top, m'.seen)
  {
    hide Represents, Passes, Checked, Committed;
    CheckThenCommit(s.bitmap, w, m.top, m.seen, index - s.top);
    assert s.top + (index - s.top) == index;
  }

  // ----- A check that is not followed by its commit -----

  predicate IsMultiple(k: nat, d: nat)
    requires 0 < d
  {
    if k < d then k == 0 else IsMultiple(k - d, d)
  }

  /** The accepted indices within the window are every delta-th one, counting back from the top. */
  ghost predicate EveryNth(w: int, top: int, seen: set<int>, delta: int)
    requires 0 < delta
  {
    forall k | 0 <= k < w :: top - k in seen <==> IsMultiple(k, delta)
  }

  /** A check moves the map even when the packet is dropped afterwards.  The map still
      means the accepted set exactly when the index was not ahead of the top, or when
      the indices accepted within the window were precisely every delta-th one. */
  lemma UncommittedCheck(bitmap: Word64, w: int, top: int, seen: set<int>, delta: int)
    requires w <= 64 && Represents(bitmap, w, top, seen)
    ensures Represents(Checked(bitmap, w, delta), w, top, seen) <==>
            delta <= 0 || EveryNth(w, top, seen, delta)
  {
    if delta > 0 {
      var after := Checked(bitmap, w, delta);
      if Represents(after, w, top, seen) {
        forall k | 0 <= k < w ensures top - k in seen <==> IsMultiple(k, delta) {
          Periodic(bitmap, w, delta, k);
          assert bitmap[k] <==> top - k in seen;
        }
        assert EveryNth(w, top, seen, delta);
      }
      if EveryNth(w, top, seen, delta) {
        forall k | 0 <= k < w ensures after[k] <==> top - k in seen {
          assert top - k in seen <==> IsMultiple(k, delta);
          if delta <= k {
            assert bitmap[k - delta] <==> top - (k - delta) in seen;
            assert top - (k - delta) in seen <==> IsMultiple(k - delta, delta);
          }
        }
        assert Represents(after, w, top, seen);
      }
    }
  }

  /** A map that its own shift leaves unchanged is periodic. */
  lemma {:induction false} Periodic(bitmap: Word64, w: int, delta: int, k: nat)
    requires k < w <= 64 && 0 < delta
    requires forall j | 0 <= j < w :: Checked(bitmap, w, delta)[j] == bitmap[j]
    ensures bitmap[k] <==> IsMultiple(k, delta)
    decreases k
  {
    assert Checked(bitmap, w, delta)[k] == bitmap[k];
    if delta <= k {
      Periodic(bitmap, w, delta, k - delta);
    }
  }

  /** The shift by delta moves a set bit to k. */
  predicate Kept(bitmap: Word64, delta: nat, k: nat)
    requires k < 64
  {
    delta <= k && bitmap[k - delta]
  }

  /** After a check without its commit, no accepted index can be passed again exactly if the index was
      not ahead of the top, or every accepted index in the window, the top aside, has the accepted
      index delta above it for company. */
  lemma DropKeepsCover(bitmap: Word64, w: int, top: int, seen: set<int>, delta: int)
    requires w <= 64
    ensures Covers(Checked(bitmap, w, delta), w, top, seen) <==>
            if delta <= 0 then Covers(bitmap, w, top, seen)
            else forall k | 0 < k < w && top - k in seen :: Kept(bitmap, delta, k)
  {
    if delta > 0 {
      var after := Checked(bitmap, w, delta);
      forall k | 0 <= k < w ensures after[k] <==> k == 0 || Kept(bitmap, delta, k) {
      }
      if Covers(after, w, top, seen) {
        forall k | 0 < k < w && top - k in seen ensures Kept(bitmap, delta, k) {
          assert after[k];
        }
      }
    }
  }

  /** A check with its commit covers one index more. */
  lemma CommitKeepsCover(bitmap: Word64, w: int, top: int, seen: set<int>, delta: int)
    requires w <= 64 && Covers(bitmap, w, top, seen) && (forall i | i in seen :: i <= top)
    requires Passes(bitmap, w, delta)
    ensures -64 < delta
    ensures Covers(Committed(Checked(bitmap, w, delta), delta), w, if delta > 0 then top + delta else top, seen + {top + delta})
  {
    if delta > 0 {
      var after, top' := Checked(bitmap, w, delta), top + delta;
      forall k | 0 <= k < w && top' - k in seen + {top'} ensures after[k] {
        if k > 0 {
          assert top - (k - delta) in seen;
        }
      }
    }
  }

  /** A replay: 4 and 5 were accepted, a packet ahead by 64 is checked and dropped, and 4 passes again. */
  lemma DropForgets()
    ensures var s := OfferAll(START, 64, [4, 5]);
            && s.top == 5 && Represents(s.bitmap, 64, 5, {4, 5})
            && !Passes(s.bitmap, 64, 4 - 5)
            && Passes(Checked(s.bitmap, 64, 64), 64, 4 - 5)
  {
    var s := OfferAll(START, 64, [4, 5]);
    assert [4, 5][..1] == [4] && [4][..0] == [];
    assert RememberAll(NOTHING, 64, [4]) == Memory({4}, 4);
    assert RememberAll(NOTHING, 64, [4, 5]) == Memory({4, 5}, 5);
    WindowRefinesMemory(64, [4, 5]);
    assert s.bitmap[1] <==> 5 - 1 in {4, 5};
  }

  // ----- The handler's own code -----

  /** The replay part of CSRTPCryptoHandler. */
  class ReplayBitmap {
    var bitmap: Word64
    const windowSizeHint: int

    constructor (hint: int)
      ensures bitmap == ZERO && windowSizeHint == hint
    {
      bitmap := ZERO;
      windowSizeHint := hint;
    }

    /** Shifting by 64 or more, and negating the smallest TInt, are undefined in C++. */
    method ReplayCheck(delta: s32) returns (ok: bool)
      requires windowSizeHint <= 64 && delta > -0x8000_0000
      modifies this`bitmap
      ensures ok == Passes(old(bitmap), windowSizeHint, delta)
      ensures bitmap == Checked(old(bitmap), windowSizeHint, delta)
    {
      var replayWSH := KReplayWindowSize;
      if windowSizeHint != replayWSH {
        replayWSH := windowSizeHint;
      }
      if delta > 0 {
        if delta < replayWSH {
          bitmap := ShiftLeft(bitmap, delta);
          bitmap := SetBit(bitmap, 0);
        } else {
          bitmap := ONE;
        }
        return true;
      }
      var diff := -delta;
      if diff >= replayWSH {
        return false;
      }
      if bitmap[diff] {
        return false;
      }
      return true;
    }

    /** The map's share of AddReplayIndex. */
    method MarkSeen(delta: s32)
      requires -64 < delta
      modifies this`bitmap
      ensures bitmap == Committed(old(bitmap), delta)
    {
      if delta <= 0 {
        var diff := -delta;
        bitmap := SetBit(bitmap, diff);
      }
    }
  }
}
