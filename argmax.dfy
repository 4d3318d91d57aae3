/** The running maximum of the forward scan, as a specification.

    The scan visits a window's elements in row-major order and replaces its
    candidate only when the new element is strictly greater, so it selects the
    first position that holds the maximum. */
module ArgMax {

  /** `t` is the first position of `w` holding the largest element. */
  ghost predicate IsFirstArgMax(w: seq<int>, t: int) {
    0 <= t < |w| &&
    (forall u :: 0 <= u < |w| ==> w[u] <= w[t]) &&
    (forall u :: 0 <= u < t ==> w[u] < w[t])
  }

  /** The candidate a strict-improvement scan holds after visiting all of `w`. */
  function FirstArgMax(w: seq<int>): (t: nat)
    requires |w| > 0
    ensures t < |w|
    decreases |w|
  {
    if |w| == 1 then 0
    else
      var t := FirstArgMax(w[..|w| - 1]);
      if w[|w| - 1] > w[t] then |w| - 1 else t
  }

  /** One more scan step: the candidate moves only on a strictly larger element. */
  lemma FirstArgMaxStep(w: seq<int>, v: int)
    requires |w| > 0
    ensures FirstArgMax(w + [v]) == if v > w[FirstArgMax(w)] then |w| else FirstArgMax(w)
  {
    assert (w + [v])[..|w|] == w;
  }

  /** The state of the scan after visiting the first `n` elements of `w`: no
      candidate yet (a negative index) before the first element; afterwards
      the candidate is the first position among them holding their maximum,
      and `maxval` is the value there. */
  ghost predicate Scanned(w: seq<int>, n: int, maxval: int, maxindex: int) {
    0 <= n <= |w| &&
    (n == 0 ==> maxindex < 0) &&
    (0 < n ==>
      0 <= maxindex < n && maxval == w[maxindex] &&
      (forall u :: 0 <= u < n ==> w[u] <= maxval) &&
      (forall u :: 0 <= u < maxindex ==> w[u] < maxval))
  }

  /** Visiting element `n` takes it as the candidate when there is none yet or
      when it is strictly greater than the current maximum, and otherwise keeps
      the candidate; either way the state describes one more element. */
  lemma ScanStep(w: seq<int>, n: int, maxval: int, maxindex: int)
    requires Scanned(w, n, maxval, maxindex) && n < |w|
    ensures maxindex < 0 || w[n] > maxval ==> Scanned(w, n + 1, w[n], n)
    ensures !(maxindex < 0 || w[n] > maxval) ==> Scanned(w, n + 1, maxval, maxindex)
  {
  }

  /** A scan that has visited every element holds `FirstArgMax`'s answer. */
  lemma ScanDone(w: seq<int>, maxval: int, maxindex: int)
    requires |w| > 0 && Scanned(w, |w|, maxval, maxindex)
    ensures maxindex == FirstArgMax(w) && maxval == w[FirstArgMax(w)]
  {
    FirstArgMaxUnique(w, maxindex);
  }

  /** The scan finds the maximum, and the first position holding it. */
  lemma {:induction false} FirstArgMaxIsFirst(w: seq<int>)
    requires |w| > 0
    ensures IsFirstArgMax(w, FirstArgMax(w))
  {
    if |w| > 1 {
      var p := w[..|w| - 1];
      FirstArgMaxIsFirst(p);
      assert forall u :: 0 <= u < |p| ==> p[u] == w[u];
    }
  }

  /** The first maximal position is unique, so `FirstArgMax` is the only
      choice the tie-breaking rule allows. */
  lemma FirstArgMaxUnique(w: seq<int>, t: int)
    requires IsFirstArgMax(w, t)
    ensures t == FirstArgMax(w)
  {
    FirstArgMaxIsFirst(w);
  }
}
