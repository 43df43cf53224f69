/** The scene search of `NextScene` and `PreviousScene`, stated over what a
    probe of each page yields: no hash (the page failed to load), a hash
    near the reference, or one far from it. The search walks a grid of
    stride `dn` away from the current page until it meets a page that is
    not near, then, when it has jumped more than one page, walks back to
    the first page of the new scene. */
module Scenes {
  import opened Errors
  import opened ImgDiff

  datatype Probe = Failed | Near | Far

  /** The probe of one page: `Far` when the Hamming distance to the
      reference exceeds the threshold. */
  function Classify(h: Option<Hash>, reference: Hash, thres: int): (p: Probe)
    ensures p == Failed <==> h.None?
    ensures p == Far <==> h.Some? && Distance(reference, h.value) > thres
  {
    match h
    case None => Failed
    case Some(v) => if Distance(reference, v) > thres then Far else Near
  }

  /** The scan stride: the configured skip, or 1 when no more than that
      many pages remain in the scan direction. Nothing keeps the skip
      positive. */
  function Stride(remaining: int, skip: int): (dn: int)
    ensures skip >= 1 ==> dn >= 1
    ensures dn == 1 || (dn == skip && remaining > skip)
    ensures remaining <= skip ==> dn == 1
  {
    if remaining <= skip then 1 else skip
  }

  /** `m` is reached from `start` by whole strides upwards. */
  predicate OnGrid(start: int, dn: int, m: int)
    requires dn >= 1
    decreases m - start
  {
    m == start || (m > start && OnGrid(start, dn, m - dn))
  }

  /** `m` is reached from `start` by whole strides downwards. */
  predicate OnGridDown(start: int, dn: int, m: int)
    requires dn >= 1
    decreases start - m
  {
    m == start || (m < start && OnGridDown(start, dn, m + dn))
  }

  /** The first grid point at or after `k` (itself on the grid) whose probe
      is not `Near`, or `len` when the grid runs out first. */
  function FirstStop(p: int -> Probe, len: int, dn: int, k: int): (n: int)
    requires dn >= 1
    decreases len - k
  {
    if k >= len then len
    else if p(k) != Near then k
    else FirstStop(p, len, dn, k + dn)
  }

  /** The last index in [lo, k) whose probe is not `Far`, or `lo - 1`. */
  function LastNotFar(p: int -> Probe, lo: int, k: int): (l: int)
    decreases k - lo
  {
    if k <= lo then lo - 1
    else if p(k - 1) != Far then k - 1
    else LastNotFar(p, lo, k - 1)
  }

  /** The first grid point at or below `k`, going down, whose probe is not
      `Near`, or -1 when the grid runs out first. */
  function FirstStopDown(p: int -> Probe, dn: int, k: int): (n: int)
    requires dn >= 1
    decreases k + 1
  {
    if k < 0 then -1
    else if p(k) != Near then k
    else FirstStopDown(p, dn, k - dn)
  }

  /** The first index in [k, hi] whose probe is not `Far`, or `hi + 1`. */
  function FirstNotFar(p: int -> Probe, k: int, hi: int): (l: int)
    decreases hi - k + 1
  {
    if k > hi then hi + 1
    else if p(k) != Far then k
    else FirstNotFar(p, k + 1, hi)
  }

  /** The page `NextScene` moves to from `pos` in an archive of `len`
      pages, or `None` when it stays. */
  function ForwardTarget(p: int -> Probe, pos: int, len: int, dn: int): Option<int>
    requires dn >= 1
  {
    var n := FirstStop(p, len, dn, pos + 1);
    if n >= len || p(n) == Failed then None
    else if dn == 1 || n == pos + 1 then Some(n)
    else
      var l := LastNotFar(p, pos + 1, n);
      if l < pos + 1 || p(l) == Failed then None else Some(l + 1)
  }

  /** The page `PreviousScene` moves to from `pos`, or `None` when it
      stays. */
  function BackwardTarget(p: int -> Probe, pos: int, dn: int): Option<int>
    requires dn >= 1
  {
    var n := FirstStopDown(p, dn, pos - 1);
    if n < 0 || p(n) == Failed then None
    else if dn == 1 || n == pos - 1 then Some(n)
    else
      var l := FirstNotFar(p, n + 1, pos - 1);
      if l > pos - 1 || p(l) == Failed then None else Some(l - 1)
  }

  /** How a scene search ends: on a page, without one, or, under a stride
      of 0, probing the same near page forever. */
  datatype Search = Lands(page: int) | Stays | Spins

  function Landing(t: Option<int>): Search {
    match t
    case Some(n) => Lands(n)
    case None => Stays
  }

  /** What `NextScene` does from `pos` in an archive of `len` pages under
      any configured skip. A stride of 0 or less never climbs the grid: a
      far next page is taken; a near one is probed forever under a stride
      of 0; under a negative stride the walk goes down until a page fails
      to load or is far, and a far page below the next one leaves nothing
      to walk back over. */
  function ForwardSearch(p: int -> Probe, pos: int, len: int, skip: int): Search {
    var dn := Stride(len - 1 - pos, skip);
    if dn >= 1 then Landing(ForwardTarget(p, pos, len, dn))
    else if pos + 1 >= len || p(pos + 1) == Failed then Stays
    else if p(pos + 1) == Far then Lands(pos + 1)
    else if dn == 0 then Spins
    else Stays
  }

  /** What `PreviousScene` does from `pos` under any configured skip: the
      mirror of `ForwardSearch`, a negative stride walking up. */
  function BackwardSearch(p: int -> Probe, pos: int, skip: int): Search {
    var dn := Stride(pos, skip);
    if dn >= 1 then Landing(BackwardTarget(p, pos, dn))
    else if pos - 1 < 0 || p(pos - 1) == Failed then Stays
    else if p(pos - 1) == Far then Lands(pos - 1)
    else if dn == 0 then Spins
    else Stays
  }

  /** The upward scan stops on the grid, past only near grid points. */
  lemma {:induction false} FirstStopFacts(p: int -> Probe, start: int, len: int, dn: int, k: int)
    requires dn >= 1 && start <= k && OnGrid(start, dn, k)
    ensures var n := FirstStop(p, len, dn, k);
      n == len || (k <= n < len && OnGrid(start, dn, n) && p(n) != Near)
    ensures var n := FirstStop(p, len, dn, k);
      forall g :: k <= g < n && g < len && OnGrid(start, dn, g) ==> p(g) == Near
    decreases len - k
  {
    var n := FirstStop(p, len, dn, k);
    if k < len && p(k) == Near {
      assert OnGrid(start, dn, k + dn);
      FirstStopFacts(p, start, len, dn, k + dn);
      forall g | k <= g < n && g < len && OnGrid(start, dn, g)
        ensures p(g) == Near
      {
        if g != k {
          GridGap(start, dn, k, g);
        }
      }
    }
  }

  /** Two grid points are at least a stride apart. */
  lemma {:induction false} GridGap(start: int, dn: int, k: int, g: int)
    requires dn >= 1 && OnGrid(start, dn, k) && OnGrid(start, dn, g) && k < g
    ensures k + dn <= g
    decreases (k - start) + (g - start)
  {
    GridAbove(start, dn, k);
    GridAbove(start, dn, g - dn);
    if g - dn > k {
      GridGap(start, dn, k, g - dn);
    } else if g - dn < k {
      GridGap(start, dn, g - dn, k);
    }
  }

  lemma GridAbove(start: int, dn: int, m: int)
    requires dn >= 1 && OnGrid(start, dn, m)
    ensures m >= start
  {
  }

  /** The downward scan stops on the grid, past only near grid points. */
  lemma {:induction false} FirstStopDownFacts(p: int -> Probe, start: int, dn: int, k: int)
    requires dn >= 1 && k <= start && OnGridDown(start, dn, k)
    ensures var n := FirstStopDown(p, dn, k);
      n == -1 || (0 <= n <= k && OnGridDown(start, dn, n) && p(n) != Near)
    ensures var n := FirstStopDown(p, dn, k);
      forall g :: n < g <= k && g >= 0 && OnGridDown(start, dn, g) ==> p(g) == Near
    decreases k + 1
  {
    var n := FirstStopDown(p, dn, k);
    if k >= 0 && p(k) == Near {
      assert OnGridDown(start, dn, k - dn);
      FirstStopDownFacts(p, start, dn, k - dn);
      forall g | n < g <= k && g >= 0 && OnGridDown(start, dn, g)
        ensures p(g) == Near
      {
        if g != k {
          GridGapDown(start, dn, g, k);
        }
      }
    }
  }

  /** Two downward grid points are at least a stride apart. */
  lemma {:induction false} GridGapDown(start: int, dn: int, g: int, k: int)
    requires dn >= 1 && OnGridDown(start, dn, k) && OnGridDown(start, dn, g) && g < k
    ensures g + dn <= k
    decreases (start - k) + (start - g)
  {
    GridBelow(start, dn, k);
    GridBelow(start, dn, g + dn);
    if g + dn < k {
      GridGapDown(start, dn, g + dn, k);
    } else if g + dn > k {
      GridGapDown(start, dn, k, g + dn);
    }
  }

  lemma GridBelow(start: int, dn: int, m: int)
    requires dn >= 1 && OnGridDown(start, dn, m)
    ensures m <= start
  {
  }

  /** The backward walk of the refinement: everything after the stop is
      far. */
  lemma {:induction false} LastNotFarFacts(p: int -> Probe, lo: int, k: int)
    ensures var l := LastNotFar(p, lo, k);
      l == lo - 1 || (lo <= l < k && p(l) != Far)
    ensures var l := LastNotFar(p, lo, k);
      forall j :: l < j < k && j >= lo ==> p(j) == Far
    decreases k - lo
  {
    if k > lo && p(k - 1) == Far {
      LastNotFarFacts(p, lo, k - 1);
    }
  }

  /** The forward walk of the refinement: everything before the stop is
      far. */
  lemma {:induction false} FirstNotFarFacts(p: int -> Probe, k: int, hi: int)
    ensures var l := FirstNotFar(p, k, hi);
      l == hi + 1 || (k <= l <= hi && p(l) != Far)
    ensures var l := FirstNotFar(p, k, hi);
      forall j :: k <= j < l && j <= hi ==> p(j) == Far
    decreases hi - k + 1
  {
    if k <= hi && p(k) == Far {
      FirstNotFarFacts(p, k + 1, hi);
    }
  }

  /** Where `NextScene` lands: a later page of the archive that is far from
      the reference, right after a near page (or right after the current
      one); no grid point before it was far, and it lies within one stride
      below the first grid point that was, with only far pages between. */
  lemma ForwardTargetFar(p: int -> Probe, pos: int, len: int, dn: int)
    requires dn >= 1
    ensures var t := ForwardTarget(p, pos, len, dn);
      t.Some? ==> pos < t.value < len && p(t.value) == Far &&
                  (t.value == pos + 1 || p(t.value - 1) == Near)
    ensures var t := ForwardTarget(p, pos, len, dn); var n := FirstStop(p, len, dn, pos + 1);
      t.Some? ==> n - dn < t.value <= n && (forall j :: t.value <= j <= n ==> p(j) == Far) &&
                  (forall g :: OnGrid(pos + 1, dn, g) && g < t.value ==> p(g) == Near)
  {
    var t := ForwardTarget(p, pos, len, dn);
    var n := FirstStop(p, len, dn, pos + 1);
    FirstStopFacts(p, pos + 1, len, dn, pos + 1);
    if t.Some? && !(dn == 1 || n == pos + 1) {
      var l := LastNotFar(p, pos + 1, n);
      LastNotFarFacts(p, pos + 1, n);
      GridAbove(pos + 1, dn, n - dn);
      assert p(n - dn) == Near;
    }
    if t.Some? {
      forall g | OnGrid(pos + 1, dn, g) && g < t.value
        ensures p(g) == Near
      {
        GridAbove(pos + 1, dn, g);
      }
    }
  }

  /** When every page loads, `NextScene` stays put exactly when every grid
      point up to the end is near the reference. */
  lemma ForwardTargetNone(p: int -> Probe, pos: int, len: int, dn: int)
    requires dn >= 1
    requires forall k :: pos < k < len ==> p(k) != Failed
    ensures ForwardTarget(p, pos, len, dn).None? <==>
      forall g :: OnGrid(pos + 1, dn, g) && g < len ==> p(g) == Near
  {
    var n := FirstStop(p, len, dn, pos + 1);
    FirstStopFacts(p, pos + 1, len, dn, pos + 1);
    if n < len && !(dn == 1 || n == pos + 1) {
      LastNotFarFacts(p, pos + 1, n);
      GridAbove(pos + 1, dn, n - dn);
      assert p(n - dn) == Near;
    }
    if n == len {
      forall g | OnGrid(pos + 1, dn, g) && g < len
        ensures p(g) == Near
      {
        GridAbove(pos + 1, dn, g);
      }
    }
  }

  /** Where `PreviousScene` lands: an earlier page far from the reference,
      right before a near page (or right before the current one); no grid
      point after it was far, and it lies within one stride above the first
      grid point that was, with only far pages between. */
  lemma BackwardTargetFar(p: int -> Probe, pos: int, dn: int)
    requires dn >= 1
    ensures var t := BackwardTarget(p, pos, dn);
      t.Some? ==> 0 <= t.value < pos && p(t.value) == Far &&
                  (t.value == pos - 1 || p(t.value + 1) == Near)
    ensures var t := BackwardTarget(p, pos, dn); var n := FirstStopDown(p, dn, pos - 1);
      t.Some? ==> n <= t.value < n + dn && (forall j :: n <= j <= t.value ==> p(j) == Far) &&
                  (forall g :: OnGridDown(pos - 1, dn, g) && g > t.value ==> p(g) == Near)
  {
    var t := BackwardTarget(p, pos, dn);
    var n := FirstStopDown(p, dn, pos - 1);
    FirstStopDownFacts(p, pos - 1, dn, pos - 1);
    if t.Some? && !(dn == 1 || n == pos - 1) {
      FirstNotFarFacts(p, n + 1, pos - 1);
      GridBelow(pos - 1, dn, n + dn);
      assert p(n + dn) == Near;
    }
    if t.Some? {
      forall g | OnGridDown(pos - 1, dn, g) && g > t.value
        ensures p(g) == Near
      {
        GridBelow(pos - 1, dn, g);
      }
    }
  }

  /** When every page loads, `PreviousScene` stays put exactly when every
      grid point down to the first page is near the reference. */
  lemma BackwardTargetNone(p: int -> Probe, pos: int, dn: int)
    requires dn >= 1
    requires forall k :: 0 <= k < pos ==> p(k) != Failed
    ensures BackwardTarget(p, pos, dn).None? <==>
      forall g :: OnGridDown(pos - 1, dn, g) && g >= 0 ==> p(g) == Near
  {
    var n := FirstStopDown(p, dn, pos - 1);
    FirstStopDownFacts(p, pos - 1, dn, pos - 1);
    if n >= 0 && !(dn == 1 || n == pos - 1) {
      FirstNotFarFacts(p, n + 1, pos - 1);
      GridBelow(pos - 1, dn, n + dn);
      assert p(n + dn) == Near;
    }
    if n == -1 {
      forall g | OnGridDown(pos - 1, dn, g) && g >= 0
        ensures p(g) == Near
      {
        GridBelow(pos - 1, dn, g);
      }
    }
  }

  /** Where `NextScene` lands under any skip: a later page of the archive,
      far from the reference, right after a near page or the current one.
      It spins exactly when the stride is 0 and the next page is near. */
  lemma ForwardSearchLands(p: int -> Probe, pos: int, len: int, skip: int)
    ensures var s := ForwardSearch(p, pos, len, skip);
      s.Lands? ==> pos < s.page < len && p(s.page) == Far &&
                   (s.page == pos + 1 || p(s.page - 1) == Near)
    ensures ForwardSearch(p, pos, len, skip) == Spins <==>
      Stride(len - 1 - pos, skip) == 0 && pos + 1 < len && p(pos + 1) == Near
  {
    var dn := Stride(len - 1 - pos, skip);
    if dn >= 1 {
      ForwardTargetFar(p, pos, len, dn);
    }
  }

  /** Where `PreviousScene` lands under any skip: the mirror of
      `ForwardSearchLands`. */
  lemma BackwardSearchLands(p: int -> Probe, pos: int, skip: int)
    ensures var s := BackwardSearch(p, pos, skip);
      s.Lands? ==> 0 <= s.page < pos && p(s.page) == Far &&
                   (s.page == pos - 1 || p(s.page + 1) == Near)
    ensures BackwardSearch(p, pos, skip) == Spins <==>
      Stride(pos, skip) == 0 && pos - 1 >= 0 && p(pos - 1) == Near
  {
    var dn := Stride(pos, skip);
    if dn >= 1 {
      BackwardTargetFar(p, pos, dn);
    }
  }

  /** The search of `NextScene` from page `pos` of `len`: the grid walk up
      from the next page, where `p` tells how page `k` compares with the
      reference. Under a negative skip the walk goes down, and ends because
      no page below 0 loads. Under a skip of 0 the source probes a near
      page again and again; the model reports `Spins` instead. */
  method ScanForward(p: int -> Probe, pos: int, len: int, skip: int) returns (t: Search)
    requires skip < 0 ==> forall k :: k < 0 ==> p(k) == Failed
    ensures t == ForwardSearch(p, pos, len, skip)
  {
    var dn := skip;
    if len - 1 - pos <= dn {
      dn := 1;
    }
    var n := pos + 1;
    while n < len
      invariant dn >= 1 ==> pos + 1 <= n && FirstStop(p, len, dn, n) == FirstStop(p, len, dn, pos + 1)
      invariant dn <= 0 ==> n <= pos + 1 && (n < pos + 1 ==> dn < 0 && p(pos + 1) == Near)
      decreases if dn >= 1 then len - n else n + 1
    {
      var probe := p(n);
      if probe == Failed {
        return Stays;
      }
      if probe == Far {
        if dn == 1 || n == pos + 1 {
          return Lands(n);
        }
        var r := WalkBack(p, pos + 1, n);
        return Landing(r);
      }
      if dn == 0 {
        return Spins;
      }
      n := n + dn;
    }
    return Stays;
  }

  /** The walk back of `NextScene` from a far page `n` down to `lo`: the
      page after the last near one. */
  method WalkBack(p: int -> Probe, lo: int, n: int) returns (t: Option<int>)
    ensures var l := LastNotFar(p, lo, n);
      t == if l < lo || p(l) == Failed then None else Some(l + 1)
  {
    if n <= lo {
      return None;
    }
    var l := n - 1;
    while l >= lo
      invariant lo - 1 <= l < n
      invariant LastNotFar(p, lo, l + 1) == LastNotFar(p, lo, n)
      decreases l - lo + 1
    {
      var probe := p(l);
      if probe == Failed {
        return None;
      }
      if probe == Near {
        return Some(l + 1);
      }
      l := l - 1;
    }
    return None;
  }

  /** The search of `PreviousScene` from page `pos` of `len`: the grid
      walk down from the previous page. Under a negative skip the walk goes
      up, and ends because no page from `len` on loads. Under a skip of 0
      the model reports `Spins` as in `ScanForward`. */
  method ScanBackward(p: int -> Probe, pos: int, len: int, skip: int) returns (t: Search)
    requires skip < 0 ==> forall k :: k >= len ==> p(k) == Failed
    ensures t == BackwardSearch(p, pos, skip)
  {
    var dn := skip;
    if pos <= dn {
      dn := 1;
    }
    var n := pos - 1;
    while n >= 0
      invariant dn >= 1 ==> n <= pos - 1 && FirstStopDown(p, dn, n) == FirstStopDown(p, dn, pos - 1)
      invariant dn <= 0 ==> n >= pos - 1 && (n > pos - 1 ==> dn < 0 && p(pos - 1) == Near)
      decreases if dn >= 1 then n + 1 else len - n
    {
      var probe := p(n);
      if probe == Failed {
        return Stays;
      }
      if probe == Far {
        if dn == 1 || n == pos - 1 {
          return Lands(n);
        }
        var r := WalkUp(p, n, pos - 1);
        return Landing(r);
      }
      if dn == 0 {
        return Spins;
      }
      n := n - dn;
    }
    return Stays;
  }

  /** The walk forward of `PreviousScene` from a far page `n` up to `hi`:
      the page before the first near one. */
  method WalkUp(p: int -> Probe, n: int, hi: int) returns (t: Option<int>)
    ensures var l := FirstNotFar(p, n + 1, hi);
      t == if l > hi || p(l) == Failed then None else Some(l - 1)
  {
    if n + 1 > hi {
      return None;
    }
    var l := n + 1;
    while l <= hi
      invariant n + 1 <= l <= hi + 1
      invariant FirstNotFar(p, l, hi) == FirstNotFar(p, n + 1, hi)
      decreases hi - l
    {
      var probe := p(l);
      if probe == Failed {
        return None;
      }
      if probe == Near {
        return Some(l - 1);
      }
      l := l + 1;
    }
    return None;
  }
}
