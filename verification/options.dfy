/** Optional values: pandas' NaN / "missing" cell and Python's `None` returns
    are both modelled as `None`. */
module Options {

  datatype Option<+T> = None | Some(value: T) {

    /** The value, or `default` when missing. pandas' `sum` skips a missing
        reading, which is the same as counting it as 0. */
    function GetOr(default: T): T {
      match this
      case Some(v) => v
      case None => default
    }
  }

  /** All the values when none is missing, otherwise `None`: how a column
      conversion that raises on its first bad cell behaves. */
  function AllPresent<T>(s: seq<Option<T>>): (r: Option<seq<T>>)
    ensures r.Some? <==> forall i | 0 <= i < |s| :: s[i].Some?
    ensures r.Some? ==> |r.value| == |s| && forall i | 0 <= i < |s| :: r.value[i] == s[i].value
  {
    if |s| == 0 then Some([])
    else
      var rest := AllPresent(s[..|s| - 1]);
      assert forall i | 0 <= i < |s| - 1 :: s[..|s| - 1][i] == s[i];
      if rest.None? || s[|s| - 1].None? then None
      else Some(rest.value + [s[|s| - 1].value])
  }

  /** Keeps the elements satisfying `keep`, in their original order
      (a boolean-mask row selection `df[mask]`). */
  function Filter<T(==,!new)>(s: seq<T>, keep: T -> bool): (r: seq<T>)
    ensures |r| <= |s|
    ensures forall i | 0 <= i < |r| :: keep(r[i])
    ensures forall x :: multiset(r)[x] == if keep(x) then multiset(s)[x] else 0
  {
    if |s| == 0 then []
    else
      var rest := Filter(s[..|s| - 1], keep);
      assert s == s[..|s| - 1] + [s[|s| - 1]];
      if keep(s[|s| - 1]) then rest + [s[|s| - 1]] else rest
  }

  /** Selection distributes over concatenation: rows keep their relative
      order, which together with the multiset clause of `Filter` pins the
      result down exactly. */
  lemma {:induction false} FilterAppend<T(!new)>(a: seq<T>, b: seq<T>, keep: T -> bool)
    ensures Filter(a + b, keep) == Filter(a, keep) + Filter(b, keep)
    decreases |b|
  {
    if |b| == 0 {
      assert a + b == a;
    } else {
      var b' := b[..|b| - 1];
      assert (a + b)[..|a + b| - 1] == a + b';
      assert (a + b)[|a + b| - 1] == b[|b| - 1];
      FilterAppend(a, b', keep);
    }
  }

  /** Selection keeps rows apart: if no earlier row `clash`es with a later
      one, the same holds of any selection of the rows. */
  lemma {:induction false} FilterKeepsApart<T(!new)>(s: seq<T>, keep: T -> bool, clash: (T, T) -> bool)
    requires forall i, j | 0 <= i < j < |s| :: !clash(s[i], s[j])
    ensures forall i, j | 0 <= i < j < |Filter(s, keep)| :: !clash(Filter(s, keep)[i], Filter(s, keep)[j])
    decreases |s|
  {
    if |s| > 0 {
      var init, last := s[..|s| - 1], s[|s| - 1];
      assert forall i, j | 0 <= i < j < |init| :: init[i] == s[i] && init[j] == s[j];
      FilterKeepsApart(init, keep, clash);
      var rest := Filter(init, keep);
      forall k | 0 <= k < |rest| ensures !clash(rest[k], last) {
        var i := FilterOrigin(init, keep, k);
        assert s[i] == rest[k];
      }
      if keep(last) {
        assert Filter(s, keep) == rest + [last];
        AppendKeepsApart(rest, last, clash);
      } else {
        assert Filter(s, keep) == rest;
      }
    }
  }

  /** Where a selected element sits in the original sequence. */
  lemma FilterOrigin<T(!new)>(s: seq<T>, keep: T -> bool, k: int) returns (i: int)
    requires 0 <= k < |Filter(s, keep)|
    ensures 0 <= i < |s| && s[i] == Filter(s, keep)[k]
  {
    var r := Filter(s, keep);
    assert r[k] in multiset(r);
    assert r[k] in multiset(s);
    i :| 0 <= i < |s| && s[i] == r[k];
  }

  /** Every selected element comes from `s`, and the selection is empty
      exactly when no element of `s` is kept. */
  lemma FilterFrom<T(!new)>(s: seq<T>, keep: T -> bool)
    ensures forall k | 0 <= k < |Filter(s, keep)| :: exists j | 0 <= j < |s| :: s[j] == Filter(s, keep)[k]
    ensures (exists j | 0 <= j < |s| :: keep(s[j])) <==> |Filter(s, keep)| > 0
  {
    var r := Filter(s, keep);
    forall k | 0 <= k < |r| ensures exists j | 0 <= j < |s| :: s[j] == r[k] {
      var j := FilterOrigin(s, keep, k);
    }
    if exists j | 0 <= j < |s| :: keep(s[j]) {
      var j :| 0 <= j < |s| && keep(s[j]);
      assert s[j] in multiset(s);
      assert multiset(r)[s[j]] > 0;
    }
  }

  lemma AppendKeepsApart<T>(rest: seq<T>, last: T, clash: (T, T) -> bool)
    requires forall i, j | 0 <= i < j < |rest| :: !clash(rest[i], rest[j])
    requires forall k | 0 <= k < |rest| :: !clash(rest[k], last)
    ensures forall i, j | 0 <= i < j < |rest + [last]| :: !clash((rest + [last])[i], (rest + [last])[j])
  {
    var r := rest + [last];
    forall i, j | 0 <= i < j < |r| ensures !clash(r[i], r[j]) {
      if j < |rest| {
        assert r[i] == rest[i] && r[j] == rest[j];
      } else {
        assert r[i] == rest[i] && r[j] == last;
      }
    }
  }

  /** A selection in which no two rows may both be kept has at most one row. */
  lemma AtMostOneKept<T(!new)>(s: seq<T>, keep: T -> bool)
    requires forall i, j | 0 <= i < j < |s| :: !(keep(s[i]) && keep(s[j]))
    ensures |Filter(s, keep)| <= 1
  {
    FilterKeepsApart(s, keep, (a: T, b: T) => keep(a) && keep(b));
    var r := Filter(s, keep);
    if |r| > 1 {
      assert false;
    }
  }
}
