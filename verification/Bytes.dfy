/** Octets and the few wire-level conversions every component shares. */
module Bytes {
  type byte = x: int | 0 <= x < 256

  type Buffer = seq<byte>

  datatype Option<+T> = None | Some(value: T)

  /** The elements `w` stand at index `i` of `src`. */
  ghost predicate At<T>(src: seq<T>, i: nat, w: seq<T>) {
    i + |w| <= |src| && forall k {:trigger w[k]} :: 0 <= k < |w| ==> src[i + k] == w[k]
  }

  lemma {:induction false} AtConcat<T>(src: seq<T>, i: nat, a: seq<T>, b: seq<T>)
    requires At(src, i, a + b)
    ensures At(src, i, a) && At(src, i + |a|, b)
  {
    forall k | 0 <= k < |a| ensures src[i + k] == a[k] { assert (a + b)[k] == a[k]; }
    forall k | 0 <= k < |b| ensures src[i + |a| + k] == b[k] { assert (a + b)[|a| + k] == b[k]; }
  }

  lemma {:induction false} AtSlice<T>(src: seq<T>, i: nat, w: seq<T>)
    requires At(src, i, w)
    ensures src[i..i + |w|] == w
  {}

  lemma {:induction false} AtPrefix<T>(src: seq<T>, before: seq<T>, w: seq<T>)
    requires before + w <= src
    ensures At(src, |before|, w)
  {
    forall k | 0 <= k < |w| ensures src[|before| + k] == w[k] { assert (before + w)[|before| + k] == w[k]; }
  }

  /** Where row r starts when every row takes w bytes. */
  function SlotAt(w: nat, r: nat): nat { r * w }

  lemma {:induction false} SlotZero(w: nat)
    ensures SlotAt(w, 0) == 0
  {}

  lemma {:induction false} SlotNext(w: nat, r: nat)
    ensures SlotAt(w, r + 1) == SlotAt(w, r) + w
  {}

  lemma {:induction false} SlotInside(w: nat, r: nat, n: nat)
    requires r < n
    ensures SlotAt(w, r) + w <= SlotAt(w, n)
    decreases n
  {
    hide SlotAt;
    SlotNext(w, n - 1);
    if r < n - 1 { SlotInside(w, r, n - 1); }
  }

  lemma {:induction false} SlotsApart(w: nat, r: nat, q: nat)
    requires r != q
    ensures SlotAt(w, r) + w <= SlotAt(w, q) || SlotAt(w, q) + w <= SlotAt(w, r)
  {
    if r < q { SlotInside(w, r, q); } else { SlotInside(w, q, r); }
  }
}
