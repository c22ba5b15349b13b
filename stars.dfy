/** Bright-star catalogue bookkeeping in `MrfTask.run` and `_subtract_widePSF`:
    removal of protected galaxies, selection of the stars to stack, the stack of
    normalised star patches, and the Pan-STARRS reordering that puts matched stars first.

    Sky matching (`match_coordinates_sky`) is foreign: its nearest-neighbour indices
    and separations (in arcsec) are inputs. */
module Stars {
  import opened Common
  import opened Pixels

  /** A catalogue row of the extraction service, with the columns these steps read */
  datatype Source = Source(x: real, y: real, flux: real, fluxAnn: real, fwhmCustom: real, mag: real)

  /** `starhalo` settings of the selection, and the frame size */
  datatype Selection = Selection(fwhmLim: real, brightLim: real, padsize: real, nStack: int, nx: nat, ny: nat)

  // ---------------------------------------------------------------------------
  // Rows removed by index (`Table.remove_rows`, `np.delete`)

  /** The rows of `s` whose index is not in `drop`, in order */
  function DeleteRows<T>(s: seq<T>, drop: set<nat>): seq<T>
    decreases |s|
  {
    if s == [] then []
    else DeleteRows(s[..|s| - 1], drop) + (if |s| - 1 in drop then [] else [s[|s| - 1]])
  }

  /** How many of the indices below `n` are in `drop` */
  function CountBelow(n: nat, drop: set<nat>): nat {
    if n == 0 then 0 else CountBelow(n - 1, drop) + (if n - 1 in drop then 1 else 0)
  }

  lemma {:induction false} DeleteRowsLength<T>(s: seq<T>, drop: set<nat>)
    ensures |DeleteRows(s, drop)| + CountBelow(|s|, drop) == |s|
    decreases |s|
  {
    if s != [] {
      DeleteRowsLength(s[..|s| - 1], drop);
    }
  }

  lemma {:induction false} DeleteRowsKeeps<T>(s: seq<T>, drop: set<nat>)
    ensures forall i :: 0 <= i < |s| && i !in drop ==> s[i] in DeleteRows(s, drop)
    decreases |s|
  {
    if s != [] {
      var init := s[..|s| - 1];
      DeleteRowsKeeps(init, drop);
      var tail := if |s| - 1 in drop then [] else [s[|s| - 1]];
      assert DeleteRows(s, drop) == DeleteRows(init, drop) + tail;
      forall i | 0 <= i < |s| && i !in drop ensures s[i] in DeleteRows(s, drop) {
        if i < |init| {
          assert init[i] == s[i];
        }
      }
    }
  }

  lemma {:induction false} DeleteRowsFrom<T>(s: seq<T>, drop: set<nat>)
    ensures forall x :: x in DeleteRows(s, drop) ==> exists i :: 0 <= i < |s| && i !in drop && s[i] == x
    decreases |s|
  {
    if s != [] {
      var init := s[..|s| - 1];
      DeleteRowsFrom(init, drop);
      var tail := if |s| - 1 in drop then [] else [s[|s| - 1]];
      assert DeleteRows(s, drop) == DeleteRows(init, drop) + tail;
      forall x | x in DeleteRows(s, drop) ensures exists i :: 0 <= i < |s| && i !in drop && s[i] == x {
        if x in DeleteRows(init, drop) {
          var i :| 0 <= i < |init| && i !in drop && init[i] == x;
          assert s[i] == x;
        } else {
          assert s[|s| - 1] == x;
        }
      }
    }
  }

  /** Deleting rows removes exactly the listed indices: every other row survives,
      every surviving row is an unlisted one, and the length drops by the number of
      listed indices in range */
  lemma DeleteRowsSpec<T>(s: seq<T>, drop: set<nat>)
    ensures |DeleteRows(s, drop)| + CountBelow(|s|, drop) == |s|
    ensures forall i :: 0 <= i < |s| && i !in drop ==> s[i] in DeleteRows(s, drop)
    ensures forall x :: x in DeleteRows(s, drop) ==> exists i :: 0 <= i < |s| && i !in drop && s[i] == x
  {
    DeleteRowsLength(s, drop);
    DeleteRowsKeeps(s, drop);
    DeleteRowsFrom(s, drop);
  }

  // ---------------------------------------------------------------------------
  // Protected galaxies (removed from the bright-star catalogue)

  /** For each protected galaxy, its nearest bright star's index is recorded when
      they lie closer than 10 arcsec */
  method GalaxyMatchesToRemove(nearest: seq<nat>, sepArcsec: seq<real>) returns (toRemove: seq<nat>)
    requires |nearest| == |sepArcsec|
    ensures forall k :: k in toRemove <==> exists i :: 0 <= i < |nearest| && sepArcsec[i] < 10.0 && nearest[i] == k
    ensures |toRemove| <= |nearest|
  {
    toRemove := [];
    var i := 0;
    while i < |nearest|
      invariant 0 <= i <= |nearest|
      invariant |toRemove| <= i
      invariant forall k :: k in toRemove <==> exists m :: 0 <= m < i && sepArcsec[m] < 10.0 && nearest[m] == k
    {
      if sepArcsec[i] < 10.0 {
        toRemove := toRemove + [nearest[i]];
      }
      i := i + 1;
    }
  }

  /** `bright_star_cat.remove_rows(np.unique(to_remove))`, skipped when nothing matched */
  function RemoveProtected(cat: seq<Source>, toRemove: seq<nat>): (r: seq<Source>)
    ensures |r| <= |cat|
  {
    DeleteRowsSpec(cat, set k | k in toRemove);
    if |toRemove| != 0 then DeleteRows(cat, set k | k in toRemove) else cat
  }

  /** No protected galaxy has bright star `n` as its nearest match within 10 arcsec */
  ghost predicate Unprotected(n: nat, nearest: seq<nat>, sepArcsec: seq<real>)
    requires |nearest| == |sepArcsec|
  {
    forall i :: 0 <= i < |nearest| && nearest[i] == n ==> sepArcsec[i] >= 10.0
  }

  /** A star's index is listed for removal exactly when it is protected */
  lemma ListedIffProtected(nearest: seq<nat>, sepArcsec: seq<real>, toRemove: seq<nat>, n: nat)
    requires |nearest| == |sepArcsec|
    requires forall k :: k in toRemove <==> exists i :: 0 <= i < |nearest| && sepArcsec[i] < 10.0 && nearest[i] == k
    ensures n in toRemove <==> !Unprotected(n, nearest, sepArcsec)
  {
    if !Unprotected(n, nearest, sepArcsec) {
      var i :| 0 <= i < |nearest| && nearest[i] == n && sepArcsec[i] < 10.0;
    }
  }

  /** A bright star survives exactly when no protected galaxy lies within 10 arcsec of it
      as its nearest match */
  lemma RemoveProtectedSpec(cat: seq<Source>, nearest: seq<nat>, sepArcsec: seq<real>, toRemove: seq<nat>)
    requires |nearest| == |sepArcsec|
    requires forall k :: k in toRemove <==> exists i :: 0 <= i < |nearest| && sepArcsec[i] < 10.0 && nearest[i] == k
    ensures forall n :: 0 <= n < |cat| && Unprotected(n, nearest, sepArcsec) ==> cat[n] in RemoveProtected(cat, toRemove)
    ensures forall x :: x in RemoveProtected(cat, toRemove) ==>
      exists n :: 0 <= n < |cat| && cat[n] == x && Unprotected(n, nearest, sepArcsec)
  {
    var drop := set k | k in toRemove;
    var r := RemoveProtected(cat, toRemove);
    DeleteRowsSpec(cat, drop);
    forall n | 0 <= n < |cat| && Unprotected(n, nearest, sepArcsec)
      ensures cat[n] in r
    {
      ListedIffProtected(nearest, sepArcsec, toRemove, n);
      assert n !in drop;
    }
    forall x | x in r
      ensures exists n :: 0 <= n < |cat| && cat[n] == x && Unprotected(n, nearest, sepArcsec)
    {
      var n :| 0 <= n < |cat| && n !in drop && cat[n] == x;
      ListedIffProtected(nearest, sepArcsec, toRemove, n);
    }
  }

  // ---------------------------------------------------------------------------
  // Selection of the stars to stack

  predicate NotTooWide(s: Source, p: Selection) { s.fwhmCustom < p.fwhmLim }
  predicate BrightEnough(s: Source, p: Selection) { s.mag < p.brightLim }
  /** Heavily saturated stars (magnitude 12 or brighter) are discarded */
  predicate NotSaturated(s: Source) { s.mag > 12.0 }
  predicate AwayFromEdges(s: Source, p: Selection) {
    s.x > p.padsize && s.x < p.nx as real - p.padsize && s.y > p.padsize && s.y < p.ny as real - p.padsize
  }

  predicate Eligible(s: Source, p: Selection) {
    NotTooWide(s, p) && BrightEnough(s, p) && NotSaturated(s) && AwayFromEdges(s, p)
  }

  /** The four successive filters of the catalogue */
  function Candidates(cat: seq<Source>, p: Selection): seq<Source> {
    var byFwhm := Where(cat, (s: Source) => NotTooWide(s, p));
    var byMag := Where(byFwhm, (s: Source) => BrightEnough(s, p));
    var unsaturated := Where(byMag, (s: Source) => NotSaturated(s));
    Where(unsaturated, (s: Source) => AwayFromEdges(s, p))
  }

  /** The successive filters keep exactly the eligible stars, in catalogue order */
  lemma {:induction false} CandidatesAreEligible(cat: seq<Source>, p: Selection)
    ensures Candidates(cat, p) == Where(cat, (s: Source) => Eligible(s, p))
    decreases |cat|
  {
    if cat != [] {
      CandidatesAreEligible(cat[1..], p);
    }
  }

  ghost predicate Ascending(s: seq<Source>) {
    forall i, j :: 0 <= i < j < |s| ==> s[i].flux <= s[j].flux
  }

  ghost predicate Descending(s: seq<Source>) {
    forall i, j :: 0 <= i < j < |s| ==> s[i].flux >= s[j].flux
  }

  /** One step of the sort: `x` placed before the first entry at least as bright */
  function Insert(x: Source, s: seq<Source>): (r: seq<Source>)
    ensures |r| == |s| + 1
  {
    if s == [] then [x]
    else if x.flux <= s[0].flux then [x] + s
    else [s[0]] + Insert(x, s[1..])
  }

  /** Inserting adds exactly `x` */
  lemma {:induction false} InsertMultiset(x: Source, s: seq<Source>)
    ensures multiset(Insert(x, s)) == multiset(s) + multiset{x}
    decreases |s|
  {
    if s != [] {
      var tail := s[1..];
      assert s == [s[0]] + tail;
      if x.flux > s[0].flux {
        InsertMultiset(x, tail);
        assert Insert(x, s) == [s[0]] + Insert(x, tail);
      }
    }
  }

  /** Inserting into an ascending sequence keeps it ascending */
  lemma {:induction false} InsertAscending(x: Source, s: seq<Source>)
    requires Ascending(s)
    ensures Ascending(Insert(x, s))
    decreases |s|
  {
    if s != [] && x.flux > s[0].flux {
      var tail := s[1..];
      InsertAscending(x, tail);
      InsertMultiset(x, tail);
      var rest := Insert(x, tail);
      forall y | y in rest ensures s[0].flux <= y.flux {
        assert y in multiset(rest);
      }
      assert Insert(x, s) == [s[0]] + rest;
      AscendingCons(s[0], rest);
    }
  }

  lemma AscendingCons(h: Source, rest: seq<Source>)
    requires Ascending(rest) && forall y :: y in rest ==> h.flux <= y.flux
    ensures Ascending([h] + rest)
  {
    var r := [h] + rest;
    forall i, j | 0 <= i < j < |r| ensures r[i].flux <= r[j].flux {
      assert r[j] == rest[j - 1];
      if i == 0 {
        assert rest[j - 1] in rest;
      } else {
        assert r[i] == rest[i - 1];
      }
    }
  }

  /** `Table.sort('flux')`: ascending by flux */
  function SortByFlux(s: seq<Source>): (r: seq<Source>)
    ensures Ascending(r) && multiset(r) == multiset(s)
  {
    if s == [] then []
    else
      assert s == [s[0]] + s[1..];
      var sorted := SortByFlux(s[1..]);
      InsertMultiset(s[0], sorted);
      InsertAscending(s[0], sorted);
      Insert(s[0], sorted)
  }

  function Reversed<T>(s: seq<T>): (r: seq<T>)
    ensures |r| == |s| && forall i :: 0 <= i < |s| ==> r[i] == s[|s| - 1 - i]
  {
    seq(|s|, i requires 0 <= i < |s| => s[|s| - 1 - i])
  }

  /** Python's `s[:n]`, where a negative `n` counts from the end */
  function SliceTo<T>(s: seq<T>, n: int): (r: seq<T>)
    ensures n >= 0 ==> |r| == if n < |s| then n else |s|
    ensures n < 0 ==> |r| == if |s| + n > 0 then |s| + n else 0
    ensures r == s[..|r|]
  {
    if n >= 0 then s[..if n < |s| then n else |s|]
    else s[..if |s| + n > 0 then |s| + n else 0]
  }

  /** The stars to stack: filtered, sorted by flux, reversed, truncated to `n_stack` */
  function PsfStars(cat: seq<Source>, p: Selection): seq<Source> {
    SliceTo(Reversed(SortByFlux(Candidates(cat, p))), p.nStack)
  }

  /** The first `k` entries of a sequence in non-increasing flux are in non-increasing
      flux, and none of the remaining entries is brighter than any of them */
  lemma TopOfDescending(d: seq<Source>, k: nat)
    requires Descending(d) && k <= |d|
    ensures Descending(d[..k])
    ensures multiset(d) == multiset(d[..k]) + multiset(d[k..])
    ensures forall t, s :: t in multiset(d[k..]) && s in d[..k] ==> t.flux <= s.flux
  {
    assert d == d[..k] + d[k..];
    forall t, s | t in multiset(d[k..]) && s in d[..k] ensures t.flux <= s.flux {
      var i :| 0 <= i < |d[k..]| && d[k..][i] == t;
      var j :| 0 <= j < k && d[..k][j] == s;
      assert d[j] == s && d[k + i] == t;
    }
  }

  /** The candidates sorted by decreasing flux */
  lemma DescendingCandidates(cat: seq<Source>, p: Selection)
    ensures var d := Reversed(SortByFlux(Candidates(cat, p)));
      Descending(d) && multiset(d) == multiset(Where(cat, (s: Source) => Eligible(s, p)))
  {
    CandidatesAreEligible(cat, p);
    ReversedMultiset(SortByFlux(Candidates(cat, p)));
  }

  /** The selection is a prefix of the candidates in non-increasing flux: the
      selected stars and the ones left over together make up the candidates, and no
      left-over star is brighter than a selected one */
  lemma PsfStarsSplit(cat: seq<Source>, p: Selection)
    ensures var d := Reversed(SortByFlux(Candidates(cat, p)));
      var r := PsfStars(cat, p);
      var c := Where(cat, (s: Source) => Eligible(s, p));
      && |d| == |c| && |r| <= |d| && r == d[..|r|] && Descending(r)
      && multiset(c) == multiset(r) + multiset(d[|r|..])
      && forall t, s :: t in multiset(d[|r|..]) && s in r ==> t.flux <= s.flux
  {
    var c := Where(cat, (s: Source) => Eligible(s, p));
    var d := Reversed(SortByFlux(Candidates(cat, p)));
    var r := PsfStars(cat, p);
    DescendingCandidates(cat, p);
    assert Descending(d) && multiset(d) == multiset(c);
    assert |d| == |c| by {
      assert |multiset(d)| == |multiset(c)|;
    }
    assert r == d[..|r|];
    TopOfDescending(d, |r|);
  }

  /** The selected stars number `n_stack` (counted from the end when negative, as a
      Python slice does), or all candidates if fewer, and they come in non-increasing
      flux */
  lemma PsfStarsCountAndOrder(cat: seq<Source>, p: Selection)
    ensures var r := PsfStars(cat, p);
      var c := Where(cat, (s: Source) => Eligible(s, p));
      && |r| == (if p.nStack >= 0 then (if p.nStack < |c| then p.nStack else |c|)
                 else if |c| + p.nStack > 0 then |c| + p.nStack else 0)
      && Descending(r)
  {
    PsfStarsSplit(cat, p);
  }

  /** Every selected star is an eligible catalogue star, selected at most as often as
      it is listed */
  lemma PsfStarsAreEligible(cat: seq<Source>, p: Selection)
    ensures var r := PsfStars(cat, p);
      var c := Where(cat, (s: Source) => Eligible(s, p));
      multiset(r) <= multiset(c) && forall s :: s in r ==> Eligible(s, p)
  {
    var c := Where(cat, (s: Source) => Eligible(s, p));
    var r := PsfStars(cat, p);
    PsfStarsSplit(cat, p);
    assert multiset(r) <= multiset(c);
    forall s | s in r ensures Eligible(s, p) {
      assert s in multiset(r);
      assert s in c;
    }
  }

  /** No eligible star left out of the stack is brighter than a selected one */
  lemma PsfStarsAreBrightest(cat: seq<Source>, p: Selection)
    ensures var r := PsfStars(cat, p);
      var c := Where(cat, (s: Source) => Eligible(s, p));
      forall t, s :: t in multiset(c) - multiset(r) && s in r ==> t.flux <= s.flux
  {
    var c := Where(cat, (s: Source) => Eligible(s, p));
    var d := Reversed(SortByFlux(Candidates(cat, p)));
    var r := PsfStars(cat, p);
    PsfStarsSplit(cat, p);
    var rest := d[|r|..];
    assert multiset(c) - multiset(r) == multiset(rest);
    forall t: Source, s: Source | t in multiset(c) - multiset(r) && s in r ensures t.flux <= s.flux {
      assert t in multiset(rest);
    }
  }

  lemma {:induction false} ReversedMultiset<T>(s: seq<T>)
    ensures multiset(Reversed(s)) == multiset(s)
    decreases |s|
  {
    if s != [] {
      var tail := s[1..];
      ReversedMultiset(tail);
      assert Reversed(s) == Reversed(tail) + [s[0]];
      assert s == [s[0]] + tail;
    }
  }

  // ---------------------------------------------------------------------------
  // The stack of normalised star patches

  type Patch = Grid<Px>

  /** What processing one selected star produced: its masked, re-centred patch and the
      star's total and annulus fluxes, or an exception */
  datatype StarOutcome = Processed(masked: Patch, flux: real, fluxAnn: real) | Raised

  /** The row can be stored: the star was processed and its patch has the stack's shape
      (a mismatched shape raises when assigned, inside the same `try`) */
  predicate Stored(o: StarOutcome, size: nat) {
    o.Processed? && Shaped(o.masked, size, size)
  }

  /** The patch divided by the star's annulus flux (`norm == 'flux_ann'`) or total flux */
  function Normalised(o: StarOutcome, byAnn: bool): Patch
    requires o.Processed?
  {
    var divisor := if byAnn then o.fluxAnn else o.flux;
    Apply(o.masked, (p: Px) => Div(p, Finite(divisor)))
  }

  /** The row written for a failed star: every pixel 1e9 */
  function Sentinel(size: nat): (r: Patch)
    ensures Shaped(r, size, size)
  {
    seq(size, _ => seq(size, _ => Finite(1000000000.0)))
  }

  function RowOf(o: StarOutcome, size: nat, byAnn: bool): Patch {
    if Stored(o, size) then Normalised(o, byAnn) else Sentinel(size)
  }

  /** The indices of the failed stars among the first `n`, in increasing order */
  function FailedUpTo(outcomes: seq<StarOutcome>, size: nat, n: nat): seq<nat>
    requires n <= |outcomes|
  {
    if n == 0 then [] else FailedUpTo(outcomes, size, n - 1) + (if Stored(outcomes[n - 1], size) then [] else [n - 1])
  }

  /** The normalised patches of the successful stars among the first `n`, in catalogue order */
  function StoredUpTo(outcomes: seq<StarOutcome>, size: nat, byAnn: bool, n: nat): seq<Patch>
    requires n <= |outcomes|
  {
    if n == 0 then []
    else StoredUpTo(outcomes, size, byAnn, n - 1) +
         (if Stored(outcomes[n - 1], size) then [Normalised(outcomes[n - 1], byAnn)] else [])
  }

  /** Fill `stack_set` star by star: a processed star's normalised patch, or the 1e9
      sentinel and its index in `bad_indices` */
  method BuildStack(outcomes: seq<StarOutcome>, size: nat, byAnn: bool) returns (stack: array<Patch>, bad: seq<nat>)
    ensures fresh(stack)
    ensures stack.Length == |outcomes|
    ensures forall i :: 0 <= i < |outcomes| ==> stack[i] == RowOf(outcomes[i], size, byAnn)
    ensures bad == FailedUpTo(outcomes, size, |outcomes|)
  {
    var zeros := seq(size, _ => seq(size, _ => Finite(0.0)));
    stack := new Patch[|outcomes|](_ => zeros);
    bad := [];
    var i: nat := 0;
    while i < |outcomes|
      invariant i <= |outcomes| && stack.Length == |outcomes|
      invariant forall k :: 0 <= k < i ==> stack[k] == RowOf(outcomes[k], size, byAnn)
      invariant bad == FailedUpTo(outcomes, size, i)
    {
      if Stored(outcomes[i], size) {
        stack[i] := Normalised(outcomes[i], byAnn);
      } else {
        stack[i] := Sentinel(size);
        bad := bad + [i];
      }
      assert stack[i] == RowOf(outcomes[i], size, byAnn);
      assert FailedUpTo(outcomes, size, i + 1) == FailedUpTo(outcomes, size, i) + (if Stored(outcomes[i], size) then [] else [i]);
      i := i + 1;
    }
  }

  lemma {:induction false} FailedBelow(outcomes: seq<StarOutcome>, size: nat, n: nat)
    requires n <= |outcomes|
    ensures forall k :: k in FailedUpTo(outcomes, size, n) ==> k < n
    ensures forall k :: 0 <= k < n ==> (k in FailedUpTo(outcomes, size, n) <==> !Stored(outcomes[k], size))
  {
    if n > 0 {
      FailedBelow(outcomes, size, n - 1);
    }
  }

  /** After `np.delete(stack_set, bad_indices, axis=0)` the stack holds exactly the
      successful stars' normalised patches, in catalogue order, and no sentinel row */
  lemma {:induction false} StackAfterDelete(outcomes: seq<StarOutcome>, size: nat, byAnn: bool, n: nat)
    requires n <= |outcomes|
    ensures var rows := seq(n, i requires 0 <= i < n => RowOf(outcomes[i], size, byAnn));
      DeleteRows(rows, set k | k in FailedUpTo(outcomes, size, |outcomes|)) == StoredUpTo(outcomes, size, byAnn, n)
  {
    var rows := seq(n, i requires 0 <= i < n => RowOf(outcomes[i], size, byAnn));
    var drop := set k | k in FailedUpTo(outcomes, size, |outcomes|);
    FailedBelow(outcomes, size, |outcomes|);
    if n > 0 {
      var prev := seq(n - 1, i requires 0 <= i < n - 1 => RowOf(outcomes[i], size, byAnn));
      assert rows[..n - 1] == prev;
      StackAfterDelete(outcomes, size, byAnn, n - 1);
      assert (n - 1 in drop) <==> !Stored(outcomes[n - 1], size);
    }
  }

  // ---------------------------------------------------------------------------
  // Pan-STARRS matching: matched stars first, each joined with its own PS1 row

  /** The entries of `s` whose flag equals `want`, in order (`cat[flag]`, `cat[~flag]`) */
  function Pick<T>(s: seq<T>, flag: seq<bool>, want: bool): (r: seq<T>)
    requires |s| == |flag|
    ensures |r| <= |s|
    decreases |s|
  {
    if s == [] then []
    else Pick(s[..|s| - 1], flag[..|s| - 1], want) + (if flag[|s| - 1] == want then [s[|s| - 1]] else [])
  }

  /** Every picked entry is a flagged entry of `s` */
  lemma {:induction false} PickFrom<T>(s: seq<T>, flag: seq<bool>, want: bool)
    requires |s| == |flag|
    ensures forall x :: x in Pick(s, flag, want) ==> exists i :: 0 <= i < |s| && flag[i] == want && s[i] == x
    decreases |s|
  {
    if s != [] {
      var n := |s|;
      PickFrom(s[..n - 1], flag[..n - 1], want);
      forall x | x in Pick(s, flag, want)
        ensures exists i :: 0 <= i < |s| && flag[i] == want && s[i] == x
      {
        if x !in Pick(s[..n - 1], flag[..n - 1], want) {
          assert flag[n - 1] == want && s[n - 1] == x;
        } else {
          var i :| 0 <= i < n - 1 && flag[..n - 1][i] == want && s[..n - 1][i] == x;
          assert flag[i] == want && s[i] == x;
        }
      }
    }
  }

  /** The last entry is in a pick exactly when its flag matches */
  lemma PickLast<T>(s: seq<T>, flag: seq<bool>, want: bool)
    requires |s| == |flag| > 0
    ensures var n := |s|;
      multiset(Pick(s, flag, want))
      == multiset(Pick(s[..n - 1], flag[..n - 1], want)) + if flag[n - 1] == want then multiset{s[n - 1]} else multiset{}
  {
    var n := |s|;
    var p := Pick(s[..n - 1], flag[..n - 1], want);
    if flag[n - 1] == want {
      assert Pick(s, flag, want) == p + [s[n - 1]];
    } else {
      assert Pick(s, flag, want) == p + [] == p;
    }
  }

  /** Taking the last entry off either pick takes it off the sequence */
  lemma PickSplitStep<T>(s: seq<T>, flag: seq<bool>)
    requires |s| == |flag| > 0
    ensures var n := |s|;
      multiset(Pick(s, flag, true)) + multiset(Pick(s, flag, false))
      == multiset(Pick(s[..n - 1], flag[..n - 1], true)) + multiset(Pick(s[..n - 1], flag[..n - 1], false)) + multiset{s[n - 1]}
  {
    PickLast(s, flag, true);
    PickLast(s, flag, false);
  }

  lemma MultisetOfLast<T>(s: seq<T>)
    requires |s| > 0
    ensures multiset(s) == multiset(s[..|s| - 1]) + multiset{s[|s| - 1]}
  {
    assert s == s[..|s| - 1] + [s[|s| - 1]];
  }

  /** The entries picked with a flag and those picked without it split the sequence */
  lemma {:induction false} PickSplit<T>(s: seq<T>, flag: seq<bool>)
    requires |s| == |flag|
    ensures multiset(Pick(s, flag, true)) + multiset(Pick(s, flag, false)) == multiset(s)
    decreases |s|
  {
    if s != [] {
      var n := |s|;
      PickSplit(s[..n - 1], flag[..n - 1]);
      PickSplitStep(s, flag);
      MultisetOfLast(s);
    }
  }

  /** Two columns of one table side by side */
  function Zip<A, B>(a: seq<A>, b: seq<B>): (z: seq<(A, B)>)
    requires |a| == |b|
    ensures |z| == |a| && forall i :: 0 <= i < |a| ==> z[i] == (a[i], b[i])
  {
    seq(|a|, i requires 0 <= i < |a| => (a[i], b[i]))
  }

  /** Picking rows of a table picks the same rows of each column: two columns picked
      separately stay aligned */
  lemma {:induction false} PickZip<A, B>(a: seq<A>, b: seq<B>, flag: seq<bool>, want: bool)
    requires |a| == |b| == |flag|
    ensures |Pick(a, flag, want)| == |Pick(b, flag, want)|
    ensures Pick(Zip(a, b), flag, want) == Zip(Pick(a, flag, want), Pick(b, flag, want))
    decreases |a|
  {
    if a != [] {
      var n := |a|;
      var ia, ib, fi := a[..n - 1], b[..n - 1], flag[..n - 1];
      PickZip(ia, ib, fi, want);
      var z := Zip(a, b);
      assert z[..n - 1] == Zip(ia, ib);
      assert Pick(z, flag, want) == Pick(Zip(ia, ib), fi, want) + (if flag[n - 1] == want then [z[n - 1]] else []);
      if flag[n - 1] == want {
        assert Pick(a, flag, want) == Pick(ia, fi, want) + [a[n - 1]];
        assert Pick(b, flag, want) == Pick(ib, fi, want) + [b[n - 1]];
        ZipSnoc(Pick(ia, fi, want), Pick(ib, fi, want), a[n - 1], b[n - 1]);
      } else {
        assert Pick(a, flag, want) == Pick(ia, fi, want) + [];
        assert Pick(b, flag, want) == Pick(ib, fi, want) + [];
      }
    }
  }

  lemma ZipSnoc<A, B>(a: seq<A>, b: seq<B>, x: A, y: B)
    requires |a| == |b|
    ensures Zip(a + [x], b + [y]) == Zip(a, b) + [(x, y)]
  {
  }

  /** `flag = d2d < 5 arcsec` */
  function MatchedWithin5(sepArcsec: seq<real>): (flag: seq<bool>)
    ensures |flag| == |sepArcsec| && forall i :: 0 <= i < |flag| ==> (flag[i] <==> sepArcsec[i] < 5.0)
  {
    seq(|sepArcsec|, i requires 0 <= i < |sepArcsec| => sepArcsec[i] < 5.0)
  }

  /** `ps1_cat[temp]`: each star's nearest PS1 row */
  function NearestRows<P>(ps1: seq<P>, nearest: seq<nat>): (rows: seq<P>)
    requires forall i :: 0 <= i < |nearest| ==> nearest[i] < |ps1|
    ensures |rows| == |nearest| && forall i :: 0 <= i < |nearest| ==> rows[i] == ps1[nearest[i]]
  {
    seq(|nearest|, i requires 0 <= i < |nearest| => ps1[nearest[i]])
  }

  /** `hstack([rows, extra], join_type='outer')`: row k gets the k-th extra row, or
      masked columns when there is none */
  function HStack<T, P>(rows: seq<T>, extra: seq<P>): (r: seq<(T, Option<P>)>)
    ensures |r| == |rows|
    ensures forall k :: 0 <= k < |rows| ==> r[k] == (rows[k], if k < |extra| then Some(extra[k]) else None)
  {
    seq(|rows|, k requires 0 <= k < |rows| => (rows[k], if k < |extra| then Some(extra[k]) else None))
  }

  /** Flag the stars matched within 5 arcsec, put them first, and attach
      `ps1_cat[temp[flag]]` row by row */
  function JoinPs1<P>(cat: seq<Source>, ps1: seq<P>, nearest: seq<nat>, sepArcsec: seq<real>)
    : seq<(Source, Option<P>)>
    requires |nearest| == |cat| == |sepArcsec|
    requires forall i :: 0 <= i < |nearest| ==> nearest[i] < |ps1|
  {
    var flag := MatchedWithin5(sepArcsec);
    HStack(Pick(cat, flag, true) + Pick(cat, flag, false), Pick(NearestRows(ps1, nearest), flag, true))
  }

  /** After the join the table has one row per star and loses or repeats none */
  lemma JoinPs1KeepsStars<P>(cat: seq<Source>, ps1: seq<P>, nearest: seq<nat>, sepArcsec: seq<real>)
    requires |nearest| == |cat| == |sepArcsec|
    requires forall i :: 0 <= i < |nearest| ==> nearest[i] < |ps1|
    ensures var j := JoinPs1(cat, ps1, nearest, sepArcsec);
      |j| == |cat| && multiset(seq(|j|, k requires 0 <= k < |j| => j[k].0)) == multiset(cat)
  {
    var flag := MatchedWithin5(sepArcsec);
    var j := JoinPs1(cat, ps1, nearest, sepArcsec);
    var yes := Pick(cat, flag, true);
    var no := Pick(cat, flag, false);
    PickSplit(cat, flag);
    assert |yes| + |no| == |cat| by {
      assert |multiset(yes) + multiset(no)| == |multiset(cat)|;
    }
    assert seq(|j|, k requires 0 <= k < |j| => j[k].0) == yes + no;
  }

  /** The matched stars come first, each beside the PS1 row it matched itself */
  lemma JoinPs1PairsMatches<P>(cat: seq<Source>, ps1: seq<P>, nearest: seq<nat>, sepArcsec: seq<real>)
    requires |nearest| == |cat| == |sepArcsec|
    requires forall i :: 0 <= i < |nearest| ==> nearest[i] < |ps1|
    ensures var j := JoinPs1(cat, ps1, nearest, sepArcsec);
      forall k :: 0 <= k < |Pick(cat, MatchedWithin5(sepArcsec), true)| ==>
        exists i :: 0 <= i < |cat| && sepArcsec[i] < 5.0 && j[k] == (cat[i], Some(ps1[nearest[i]]))
  {
    var flag := MatchedWithin5(sepArcsec);
    var rows := NearestRows(ps1, nearest);
    var j := JoinPs1(cat, ps1, nearest, sepArcsec);
    var yes := Pick(cat, flag, true);
    PickZip(cat, rows, flag, true);
    var pairs := Pick(Zip(cat, rows), flag, true);
    PickFrom(Zip(cat, rows), flag, true);
    forall k | 0 <= k < |yes|
      ensures exists i :: 0 <= i < |cat| && sepArcsec[i] < 5.0 && j[k] == (cat[i], Some(ps1[nearest[i]]))
    {
      assert j[k] == (pairs[k].0, Some(pairs[k].1));
      assert pairs[k] in pairs;
      var i :| 0 <= i < |cat| && flag[i] == true && Zip(cat, rows)[i] == pairs[k];
      assert j[k] == (cat[i], Some(rows[i]));
      assert sepArcsec[i] < 5.0 && j[k] == (cat[i], Some(ps1[nearest[i]]));
    }
    assert forall k :: 0 <= k < |yes| ==>
      exists i :: 0 <= i < |cat| && sepArcsec[i] < 5.0 && j[k] == (cat[i], Some(ps1[nearest[i]]));
  }

  /** The unmatched stars follow, with masked PS1 columns */
  lemma JoinPs1MasksUnmatched<P>(cat: seq<Source>, ps1: seq<P>, nearest: seq<nat>, sepArcsec: seq<real>)
    requires |nearest| == |cat| == |sepArcsec|
    requires forall i :: 0 <= i < |nearest| ==> nearest[i] < |ps1|
    ensures var j := JoinPs1(cat, ps1, nearest, sepArcsec);
      forall k :: |Pick(cat, MatchedWithin5(sepArcsec), true)| <= k < |j| ==>
        j[k].1 == None && exists i :: 0 <= i < |cat| && sepArcsec[i] >= 5.0 && j[k].0 == cat[i]
  {
    var flag := MatchedWithin5(sepArcsec);
    var rows := NearestRows(ps1, nearest);
    var j := JoinPs1(cat, ps1, nearest, sepArcsec);
    var yes := Pick(cat, flag, true);
    var no := Pick(cat, flag, false);
    PickZip(cat, rows, flag, true);
    PickFrom(cat, flag, false);
    forall k | |yes| <= k < |j|
      ensures j[k].1 == None && exists i :: 0 <= i < |cat| && sepArcsec[i] >= 5.0 && j[k].0 == cat[i]
    {
      assert j[k].0 == no[k - |yes|] && no[k - |yes|] in no;
      var i :| 0 <= i < |cat| && flag[i] == false && cat[i] == no[k - |yes|];
    }
  }
}
