/** The optional value the program expresses with `None`, a caught exception or the
    string "Unknown". */
module Options {

  datatype Option<+T> = None | Some(value: T) {

    /** The value, or `default` when there is none. */
    function GetOr(default: T): T {
      match this
      case Some(v) => v
      case None => default
    }
  }

  /** The first present value among `f(lo)`, `f(lo + 1)`, ..., `f(hi - 1)`: the shape of
      every "try each candidate in turn and stop at the first that works" loop. */
  function FirstPresent<T>(f: nat -> Option<T>, lo: nat, hi: nat): (r: Option<T>)
    ensures r.None? <==> forall k :: lo <= k < hi ==> f(k).None?
    ensures r.Some? ==> exists k :: lo <= k < hi && f(k) == r && forall j :: lo <= j < k ==> f(j).None?
    decreases hi - lo
  {
    if lo >= hi then None
    else if f(lo).Some? then f(lo)
    else FirstPresent(f, lo + 1, hi)
  }

  /** The value found is that of the first candidate that works: every earlier one
      failed. */
  lemma {:induction false} FirstPresentIsFirst<T>(f: nat -> Option<T>, lo: nat, hi: nat, k: nat)
    requires lo <= k < hi && f(k).Some?
    requires forall j :: lo <= j < k ==> f(j).None?
    ensures FirstPresent(f, lo, hi) == f(k)
    decreases k - lo
  {
    if lo < k {
      FirstPresentIsFirst(f, lo + 1, hi, k);
    }
  }

  /** Only the candidates in the range matter. */
  lemma {:induction false} FirstPresentAgree<T>(f: nat -> Option<T>, g: nat -> Option<T>, lo: nat, hi: nat)
    requires forall k :: lo <= k < hi ==> f(k) == g(k)
    ensures FirstPresent(f, lo, hi) == FirstPresent(g, lo, hi)
    decreases hi - lo
  {
    if lo < hi {
      FirstPresentAgree(f, g, lo + 1, hi);
    }
  }
}
