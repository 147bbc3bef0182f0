/**
 * The sliding context window `[left buffer] word [right buffer]` over the
 * ids of a token stream. Both buffers have `wsize` slots and `-1` marks an
 * empty slot. The view functions say which ids a window shows after a given
 * sequence of ids has been fed to it.
 */
module Window {

  /** The sentinel of an empty slot. */
  const Empty: int := -1

  /** The id at position `k` of the ids fed, or `Empty` when there is none there. */
  function Slot(fed: seq<int>, k: int): int
  {
    if 0 <= k < |fed| then fed[k] else Empty
  }

  /**
   * The position in the fed ids of the center word: the first id until the
   * right buffer is full, then `w` ids behind the newest.
   */
  function CenterIndex(n: nat, w: nat): nat
  {
    if n <= w + 1 then 0 else n - 1 - w
  }

  function CenterView(fed: seq<int>, w: nat): int
  {
    Slot(fed, CenterIndex(|fed|, w))
  }

  function LeftView(fed: seq<int>, w: nat): seq<int>
  {
    seq(w, j => Slot(fed, CenterIndex(|fed|, w) - w + j))
  }

  function RightView(fed: seq<int>, w: nat): seq<int>
  {
    seq(w, j => Slot(fed, CenterIndex(|fed|, w) + 1 + j))
  }

  /** The index of the first empty slot of `s`, or `|s|` when every slot is taken. */
  function FirstEmpty(s: seq<int>): (r: nat)
    ensures r <= |s|
    ensures forall k | 0 <= k < r :: s[k] != Empty
    ensures r < |s| ==> s[r] == Empty
  {
    if s == [] || s[0] == Empty then 0 else 1 + FirstEmpty(s[1..])
  }

  /** Any index that has only taken slots before it and an empty one (or the end) at it is the first empty one. */
  lemma FirstEmptyIs(s: seq<int>, n: nat)
    requires n <= |s|
    requires forall k | 0 <= k < n :: s[k] != Empty
    requires n < |s| ==> s[n] == Empty
    ensures FirstEmpty(s) == n
  {
  }

  predicate AllIds(fed: seq<int>)
  {
    forall k | 0 <= k < |fed| :: fed[k] >= 0
  }

  lemma LeftAt(fed: seq<int>, w: nat, j: nat)
    requires j < w
    ensures |LeftView(fed, w)| == w
    ensures LeftView(fed, w)[j] == Slot(fed, CenterIndex(|fed|, w) - w + j)
  {
  }

  lemma RightAt(fed: seq<int>, w: nat, j: nat)
    requires j < w
    ensures |RightView(fed, w)| == w
    ensures RightView(fed, w)[j] == Slot(fed, CenterIndex(|fed|, w) + 1 + j)
  {
  }

  /**
   * The window after `n` ids, case by case: nothing fed shows only empty
   * slots; up to `w + 1` ids keep the first as center, fill the right buffer
   * from its start and leave the left buffer empty; after that the center is
   * `w` ids behind the newest, the right buffer holds the `w` newest ids and
   * the left buffer the `w` ids before the center, empty where there are none.
   */
  lemma ViewsByCase(fed: seq<int>, w: nat)
    ensures fed == [] ==>
      CenterView(fed, w) == Empty && LeftView(fed, w) == seq(w, _ => Empty) && RightView(fed, w) == seq(w, _ => Empty)
    ensures 1 <= |fed| <= w + 1 ==>
      && CenterView(fed, w) == fed[0]
      && LeftView(fed, w) == seq(w, _ => Empty)
      && forall j | 0 <= j < w :: RightView(fed, w)[j] == if j <= |fed| - 2 then fed[j + 1] else Empty
    ensures |fed| > w + 1 ==>
      && CenterView(fed, w) == fed[|fed| - 1 - w]
      && RightView(fed, w) == fed[|fed| - w..]
      && forall j | 0 <= j < w :: LeftView(fed, w)[j] ==
           if |fed| - 1 - 2 * w + j >= 0 then fed[|fed| - 1 - 2 * w + j] else Empty
  {
    forall j | 0 <= j < w
      ensures LeftView(fed, w)[j] == Slot(fed, CenterIndex(|fed|, w) - w + j)
      ensures RightView(fed, w)[j] == Slot(fed, CenterIndex(|fed|, w) + 1 + j)
    {
      LeftAt(fed, w, j);
      RightAt(fed, w, j);
    }
    if |fed| > w + 1 {
      assert |RightView(fed, w)| == |fed[|fed| - w..]|;
      forall j | 0 <= j < w
        ensures RightView(fed, w)[j] == fed[|fed| - w..][j]
      {
      }
    }
  }

  // ---------------------------------------------------------------------
  // Which case of Slide applies
  // ---------------------------------------------------------------------

  /** The center is empty exactly when nothing has been fed. */
  lemma CenterEmpty(fed: seq<int>, w: nat)
    requires AllIds(fed)
    ensures CenterView(fed, w) == Empty <==> fed == []
  {
  }

  /**
   * Once there is a center, the first empty right slot is the one the next
   * id fills while at most `w` ids have been fed; after that the right buffer
   * is full.
   */
  lemma RightFilling(fed: seq<int>, w: nat)
    requires AllIds(fed) && fed != []
    ensures FirstEmpty(RightView(fed, w)) == if |fed| <= w then |fed| - 1 else w
  {
    var r := RightView(fed, w);
    var n := if |fed| <= w then |fed| - 1 else w;
    forall k | 0 <= k < w
      ensures r[k] == Empty <==> k >= |fed| - 1
    {
      RightAt(fed, w, k);
    }
    FirstEmptyIs(r, n);
  }

  // ---------------------------------------------------------------------
  // How the views change when one more id is fed
  // ---------------------------------------------------------------------

  lemma ViewsInit(w: nat, id: int)
    ensures CenterView([id], w) == id
    ensures LeftView([id], w) == LeftView([], w)
    ensures RightView([id], w) == RightView([], w)
  {
    forall j | 0 <= j < w
      ensures LeftView([id], w)[j] == LeftView([], w)[j]
      ensures RightView([id], w)[j] == RightView([], w)[j]
    {
      LeftAt([id], w, j);
      LeftAt([], w, j);
      RightAt([id], w, j);
      RightAt([], w, j);
    }
  }

  lemma ViewsFill(fed: seq<int>, w: nat, id: int)
    requires 1 <= |fed| <= w
    ensures CenterView(fed + [id], w) == CenterView(fed, w)
    ensures LeftView(fed + [id], w) == LeftView(fed, w)
    ensures RightView(fed + [id], w) == RightView(fed, w)[|fed| - 1 := id]
  {
    var fed' := fed + [id];
    assert CenterIndex(|fed'|, w) == 0 == CenterIndex(|fed|, w);
    forall j | 0 <= j < w
      ensures LeftView(fed', w)[j] == LeftView(fed, w)[j]
      ensures RightView(fed', w)[j] == RightView(fed, w)[|fed| - 1 := id][j]
    {
      LeftAt(fed', w, j);
      LeftAt(fed, w, j);
      RightAt(fed', w, j);
      RightAt(fed, w, j);
    }
  }

  lemma ViewsShift(fed: seq<int>, w: nat, id: int)
    requires w >= 1 && |fed| >= w + 1
    ensures LeftView(fed + [id], w) == LeftView(fed, w)[1..] + [CenterView(fed, w)]
    ensures CenterView(fed + [id], w) == RightView(fed, w)[0]
    ensures RightView(fed + [id], w) == RightView(fed, w)[1..] + [id]
  {
    var fed' := fed + [id];
    var c := CenterIndex(|fed|, w);
    assert c == |fed| - 1 - w;
    assert CenterIndex(|fed'|, w) == c + 1;
    RightAt(fed, w, 0);
    forall j | 0 <= j < w
      ensures LeftView(fed', w)[j] == (LeftView(fed, w)[1..] + [CenterView(fed, w)])[j]
      ensures RightView(fed', w)[j] == (RightView(fed, w)[1..] + [id])[j]
    {
      LeftAt(fed', w, j);
      RightAt(fed', w, j);
      if j + 1 < w {
        LeftAt(fed, w, j + 1);
        RightAt(fed, w, j + 1);
      }
    }
  }

  // ---------------------------------------------------------------------
  // What the window shows
  // ---------------------------------------------------------------------

  /** The ids of the slots that are not empty, in order. */
  function Occupied(slots: seq<int>): seq<int>
  {
    if slots == [] then []
    else Occupied(slots[..|slots| - 1]) + (if slots[|slots| - 1] == Empty then [] else [slots[|slots| - 1]])
  }

  function Clamp(k: int, n: nat): nat
  {
    if k < 0 then 0 else if k > n then n else k
  }

  /** `m` consecutive slots from position `base` of the fed ids show the ids fed in that range. */
  lemma {:induction false} OccupiedRange(fed: seq<int>, base: int, m: nat)
    requires AllIds(fed)
    ensures Clamp(base, |fed|) <= Clamp(base + m, |fed|)
    ensures Occupied(seq(m, k => Slot(fed, base + k)))
         == fed[Clamp(base, |fed|)..Clamp(base + m, |fed|)]
    decreases m
  {
    if m > 0 {
      var s := seq(m, k => Slot(fed, base + k));
      var s' := seq(m - 1, k => Slot(fed, base + k));
      assert s[..m - 1] == s';
      OccupiedRange(fed, base, m - 1);
      var lo, hi := Clamp(base, |fed|), Clamp(base + m - 1, |fed|);
      assert Occupied(s) == Occupied(s') + (if s[m - 1] == Empty then [] else [s[m - 1]]);
      assert s[m - 1] == Slot(fed, base + m - 1);
      if 0 <= base + m - 1 < |fed| {
        assert s[m - 1] == fed[hi] != Empty;
        assert Clamp(base + m, |fed|) == hi + 1;
        assert fed[lo..hi] + [fed[hi]] == fed[lo..hi + 1];
      } else {
        assert s[m - 1] == Empty;
        assert Clamp(base + m, |fed|) == hi;
      }
    }
  }

  /**
   * The window always shows the most recent ids fed, at most 2W + 1 of them,
   * in the order they were fed.
   */
  lemma ShowsMostRecent(fed: seq<int>, w: nat)
    requires AllIds(fed)
    ensures Occupied(LeftView(fed, w) + [CenterView(fed, w)] + RightView(fed, w))
         == fed[|fed| - (if |fed| < 2 * w + 1 then |fed| else 2 * w + 1)..]
  {
    var c := CenterIndex(|fed|, w);
    ViewsTogether(fed, w);
    OccupiedRange(fed, c - w, 2 * w + 1);
    var n := if |fed| < 2 * w + 1 then |fed| else 2 * w + 1;
    assert Clamp(c - w, |fed|) == |fed| - n && Clamp(c - w + 2 * w + 1, |fed|) == |fed| by {
      if |fed| <= w + 1 {
        assert c == 0;
      } else {
        assert c == |fed| - 1 - w;
      }
    }
  }

  /** Left buffer, center and right buffer are `2w + 1` consecutive slots around the center. */
  lemma ViewsTogether(fed: seq<int>, w: nat)
    ensures LeftView(fed, w) + [CenterView(fed, w)] + RightView(fed, w)
         == seq(2 * w + 1, k => Slot(fed, CenterIndex(|fed|, w) - w + k))
  {
    var all := seq(2 * w + 1, k => Slot(fed, CenterIndex(|fed|, w) - w + k));
    var shown := LeftView(fed, w) + [CenterView(fed, w)] + RightView(fed, w);
    forall k | 0 <= k < 2 * w + 1
      ensures shown[k] == all[k]
    {
      if k < w {
        LeftAt(fed, w, k);
      } else if k > w {
        RightAt(fed, w, k - w - 1);
      }
    }
    assert |shown| == |all|;
  }

  /** Before anything is fed every slot is empty. */
  lemma EmptyViews(w: nat)
    ensures LeftView([], w) == seq(w, _ => Empty)
    ensures RightView([], w) == seq(w, _ => Empty)
  {
    forall j | 0 <= j < w
      ensures LeftView([], w)[j] == Empty && RightView([], w)[j] == Empty
    {
      LeftAt([], w, j);
      RightAt([], w, j);
    }
  }

  // ---------------------------------------------------------------------
  // The window object
  // ---------------------------------------------------------------------

  class ContextWindow {
    const wsize: nat
    const left: array<int>
    const right: array<int>
    var word: int

    /** The ids fed to the window so far. */
    ghost var Fed: seq<int>

    /** The buffers have `wsize` slots each and are different arrays. */
    ghost predicate Wellformed()
      reads this
    {
      left.Length == wsize && right.Length == wsize && left != right
    }

    /** The window shows what the view functions say for the ids fed so far. */
    ghost predicate Shows()
      reads this, left, right
    {
      && Wellformed()
      && AllIds(Fed)
      && left[..] == LeftView(Fed, wsize)
      && word == CenterView(Fed, wsize)
      && right[..] == RightView(Fed, wsize)
    }

    /** `NewContextWindow(size)`: every slot and the center are empty. */
    constructor (size: nat)
      ensures wsize == size && Wellformed() && fresh(left) && fresh(right)
      ensures word == Empty
      ensures left[..] == seq(size, _ => Empty) && right[..] == seq(size, _ => Empty)
      ensures Fed == [] && Shows()
    {
      wsize := size;
      word := Empty;
      left := new int[size];
      right := new int[size];
      Fed := [];
      new;
      var i := 0;
      while i < size
        invariant 0 <= i <= size
        invariant forall k | 0 <= k < i :: left[k] == Empty && right[k] == Empty
        invariant word == Empty && Fed == []
      {
        left[i] := Empty;
        right[i] := Empty;
        i := i + 1;
      }
      assert left[..] == seq(size, _ => Empty);
      assert right[..] == seq(size, _ => Empty);
      EmptyViews(size);
    }

    /** Drops `a[0]`, moves the rest one slot to the left and puts `x` last. */
    static method ShiftIn(a: array<int>, x: int) returns (dropped: int)
      requires a.Length >= 1
      modifies a
      ensures dropped == old(a[0])
      ensures a[..] == old(a[..])[1..] + [x]
    {
      dropped := a[0];
      var k := 0;
      while k < a.Length - 1
        invariant 0 <= k <= a.Length - 1
        invariant forall j | 0 <= j < k :: a[j] == old(a[j + 1])
        invariant forall j | k <= j < a.Length :: a[j] == old(a[j])
      {
        a[k] := a[k + 1];
        k := k + 1;
      }
      a[a.Length - 1] := x;
      assert a[..] == old(a[..])[1..] + [x];
    }

    /**
     * `ContextWindow.Slide`: an empty center takes the id; otherwise the
     * first empty right slot takes it; otherwise everything moves one place
     * to the left (the oldest left id drops out, the center joins the left
     * buffer, the first right id becomes the center) and the id goes last
     * into the right buffer. That last case needs `wsize >= 1` (in Go it
     * slices an empty buffer and panics).
     */
    method Slide(nextWordID: int)
      requires Wellformed()
      requires word == Empty || wsize >= 1
      modifies this, left, right
      ensures Wellformed()
      ensures Fed == old(Fed) + [nextWordID]
      ensures old(word) == Empty ==>
        word == nextWordID && left[..] == old(left[..]) && right[..] == old(right[..])
      ensures old(word) != Empty && FirstEmpty(old(right[..])) < wsize ==>
        && word == old(word) && left[..] == old(left[..])
        && right[..] == old(right[..])[FirstEmpty(old(right[..])) := nextWordID]
      ensures old(word) != Empty && FirstEmpty(old(right[..])) == wsize ==>
        && word == old(right[0])
        && left[..] == old(left[..])[1..] + [old(word)]
        && right[..] == old(right[..])[1..] + [nextWordID]
      ensures old(Shows()) && nextWordID >= 0 ==> Shows()
    {
      ghost var fed := Fed;
      Fed := Fed + [nextWordID];
      if word == Empty {
        if old(Shows()) && nextWordID >= 0 {
          CenterEmpty(fed, wsize);
          assert fed + [nextWordID] == [nextWordID];
          ViewsInit(wsize, nextWordID);
        }
        word := nextWordID;
        return;
      }
      var i := 0;
      while i < wsize
        invariant 0 <= i <= wsize
        invariant forall k | 0 <= k < i :: right[k] != Empty
        invariant right[..] == old(right[..]) && left[..] == old(left[..])
        invariant word == old(word) && Fed == fed + [nextWordID]
      {
        if right[i] == Empty {
          assert FirstEmpty(right[..]) == i;
          if old(Shows()) && nextWordID >= 0 {
            CenterEmpty(fed, wsize);
            RightFilling(fed, wsize);
            ViewsFill(fed, wsize, nextWordID);
          }
          right[i] := nextWordID;
          return;
        }
        i := i + 1;
      }
      assert FirstEmpty(right[..]) == wsize;
      if old(Shows()) && nextWordID >= 0 {
        CenterEmpty(fed, wsize);
        RightFilling(fed, wsize);
        ViewsShift(fed, wsize, nextWordID);
      }
      var center := word;
      var _ := ShiftIn(left, center);
      word := ShiftIn(right, nextWordID);
    }
  }

  /** A window of width 2 fed the ids 1, 2, 3, 4 shows `[-1 1] 2 [3 4]`. */
  lemma TraceExample()
    ensures LeftView([1, 2, 3, 4], 2) == [Empty, 1]
    ensures CenterView([1, 2, 3, 4], 2) == 2
    ensures RightView([1, 2, 3, 4], 2) == [3, 4]
  {
    LeftAt([1, 2, 3, 4], 2, 0);
    LeftAt([1, 2, 3, 4], 2, 1);
    RightAt([1, 2, 3, 4], 2, 0);
    RightAt([1, 2, 3, 4], 2, 1);
  }
}
