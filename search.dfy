/** The bounded path search: level by level, every path of the frontier is
    replayed from the initial snake and extended by each letter whose one
    extra step succeeds. */
module PathSearch {
  import opened Transition

  /** The test of the inner loop: replaying `p` succeeds and one more step
      in direction `d` succeeds from where it ends. */
  predicate Extends(b: Board, snk: Snake, p: Path, d: Dir)
    requires |snk| >= 1
  {
    match ComputeSnake(b, snk, p)
    case None => false
    case Some(t) => Step(b, t, d).Some?
  }

  /** The extensions of one path, in the order of `ds`. */
  function ExtendPath(b: Board, snk: Snake, p: Path, ds: seq<Dir>): (r: seq<Path>)
    requires |snk| >= 1
    ensures |r| <= |ds|
    decreases |ds|
  {
    if ds == [] then []
    else
      var last := ds[|ds| - 1];
      ExtendPath(b, snk, p, ds[..|ds| - 1]) + (if Extends(b, snk, p, last) then [p + [last]] else [])
  }

  /** One level of the search: the extensions of every path, in the order of
      `ps`, each path's in the order of `ds`. */
  function NextLevel(b: Board, snk: Snake, ps: seq<Path>, ds: seq<Dir>): (r: seq<Path>)
    requires |snk| >= 1
    ensures |r| <= |ps| * |ds|
    decreases |ps|
  {
    if ps == [] then []
    else
      var rest := NextLevel(b, snk, ps[..|ps| - 1], ds);
      assert |rest| <= (|ps| - 1) * |ds|;
      rest + ExtendPath(b, snk, ps[|ps| - 1], ds)
  }

  /** `depth` more levels of the search from the frontier `ps`. */
  function ValidPaths(b: Board, snk: Snake, ps: seq<Path>, depth: nat, ds: seq<Dir>): seq<Path>
    requires |snk| >= 1
    decreases depth
  {
    if depth == 0 then ps else ValidPaths(b, snk, NextLevel(b, snk, ps, ds), depth - 1, ds)
  }

  /** The seed layer: the single letters whose step succeeds. */
  function Seeds(b: Board, snk: Snake): seq<Path>
    requires |snk| >= 1
  {
    NextLevel(b, snk, [[]], Directions)
  }

  /** The whole search for `maxDepth` letters. */
  function Search(b: Board, snk: Snake, maxDepth: int): seq<Path>
    requires |snk| >= 1 && maxDepth >= 1
  {
    if maxDepth == 1 then Seeds(b, snk)
    else ValidPaths(b, snk, Seeds(b, snk), maxDepth - 1, Directions)
  }

  function Pow(x: nat, n: nat): nat {
    if n == 0 then 1 else x * Pow(x, n - 1)
  }

  /** Lexicographic order on paths under U < D < R < L; a proper prefix
      comes first. */
  predicate LexLess(p: Path, q: Path)
    decreases |p|
  {
    |q| > 0 &&
    (|p| == 0 || Rank(p[0]) < Rank(q[0]) || (p[0] == q[0] && LexLess(p[1..], q[1..])))
  }

  /** Strictly increasing in lexicographic order, hence free of duplicates. */
  predicate LexSorted(ps: seq<Path>) {
    forall i, j :: 0 <= i < j < |ps| ==> LexLess(ps[i], ps[j])
  }

  predicate AllOfLength(ps: seq<Path>, n: nat) {
    forall p :: p in ps ==> |p| == n
  }

  /** The letters are listed in search order, each at most once. */
  predicate RankIncreasing(ds: seq<Dir>) {
    forall i, j :: 0 <= i < j < |ds| ==> Rank(ds[i]) < Rank(ds[j])
  }

  // ---------------------------------------------------------------------
  // The imperative search, as the program runs it.
  // ---------------------------------------------------------------------

  /** The recursive search: for each frontier path and each letter, replay
      the path from `snk` and keep `path + [direction]` when one more step
      succeeds; then continue with one level less. */
  method ComputeValidPaths(b: Board, snk: Snake, paths: seq<Path>, depth: nat, ds: seq<Dir>)
    returns (r: seq<Path>)
    requires |snk| >= 1
    ensures r == ValidPaths(b, snk, paths, depth, ds)
    decreases depth
  {
    if depth == 0 {
      return paths;
    }
    var validPaths: seq<Path> := [];
    var i := 0;
    while i < |paths|
      invariant 0 <= i <= |paths|
      invariant validPaths == NextLevel(b, snk, paths[..i], ds)
    {
      var path := paths[i];
      var j := 0;
      while j < |ds|
        invariant 0 <= j <= |ds|
        invariant validPaths == NextLevel(b, snk, paths[..i], ds) + ExtendPath(b, snk, path, ds[..j])
      {
        var direction := ds[j];
        var auxSnake := ComputeSnake(b, snk, path);
        if auxSnake.Some? {
          if Step(b, auxSnake.value, direction).Some? {
            validPaths := validPaths + [path + [direction]];
          }
        }
        assert ds[..j + 1][..j] == ds[..j];
        j := j + 1;
      }
      assert ds[..|ds|] == ds;
      assert paths[..i + 1][..i] == paths[..i];
      i := i + 1;
    }
    assert paths[..|paths|] == paths;
    r := ComputeValidPaths(b, snk, validPaths, depth - 1, ds);
  }

  /** The seed layer, built by trying U, D, R and L in turn. */
  method SeedLayer(b: Board, snk: Snake) returns (initialPaths: seq<Path>)
    requires |snk| >= 1
    ensures initialPaths == Seeds(b, snk)
  {
    initialPaths := [];
    if Step(b, snk, U).Some? { initialPaths := initialPaths + [[U]]; }
    if Step(b, snk, D).Some? { initialPaths := initialPaths + [[D]]; }
    if Step(b, snk, R).Some? { initialPaths := initialPaths + [[R]]; }
    if Step(b, snk, L).Some? { initialPaths := initialPaths + [[L]]; }
    SeedsUnfold(b, snk);
  }

  /** The driver: the seed layer is the answer for one letter; otherwise the
      recursive search runs `maxDepth - 1` more levels from it. The result is
      every path of `maxDepth` letters whose every step succeeds, in
      lexicographic order. */
  method FindValidPaths(b: Board, snk: Snake, maxDepth: int) returns (validPaths: seq<Path>)
    requires |snk| >= 1 && maxDepth >= 1
    ensures validPaths == Search(b, snk, maxDepth)
    ensures forall p :: p in validPaths <==> |p| == maxDepth && Valid(b, snk, p)
    ensures LexSorted(validPaths)
  {
    var initialPaths := SeedLayer(b, snk);
    if maxDepth == 1 {
      validPaths := initialPaths;
    } else {
      validPaths := ComputeValidPaths(b, snk, initialPaths, maxDepth - 1, Directions);
    }
    SearchCorrect(b, snk, maxDepth);
  }

  // ---------------------------------------------------------------------
  // Lemmas about the specification functions.
  // ---------------------------------------------------------------------

  /** The seed layer written out letter by letter. */
  lemma SeedsUnfold(b: Board, snk: Snake)
    requires |snk| >= 1
    ensures Seeds(b, snk) ==
              (if Step(b, snk, U).Some? then [[U]] else []) +
              (if Step(b, snk, D).Some? then [[D]] else []) +
              (if Step(b, snk, R).Some? then [[R]] else []) +
              (if Step(b, snk, L).Some? then [[L]] else [])
  {
    var e: Path := [];
    assert [e][..0] == [];
    assert NextLevel(b, snk, [e], Directions) == ExtendPath(b, snk, e, Directions);
    forall d
      ensures Extends(b, snk, e, d) == Step(b, snk, d).Some? && e + [d] == [d]
    {
    }
    var ds := Directions;
    assert ds[..3] == [U, D, R] && ds[3] == L;
    assert ExtendPath(b, snk, e, ds) ==
             ExtendPath(b, snk, e, [U, D, R]) + (if Step(b, snk, L).Some? then [[L]] else []);
    assert [U, D, R][..2] == [U, D];
    assert ExtendPath(b, snk, e, [U, D, R]) ==
             ExtendPath(b, snk, e, [U, D]) + (if Step(b, snk, R).Some? then [[R]] else []);
    assert [U, D][..1] == [U];
    assert ExtendPath(b, snk, e, [U, D]) ==
             ExtendPath(b, snk, e, [U]) + (if Step(b, snk, D).Some? then [[D]] else []);
    assert [U][..0] == [];
    assert ExtendPath(b, snk, e, [U]) == (if Step(b, snk, U).Some? then [[U]] else []);
  }

  /** The inner-loop test is the validity of the extended path. */
  lemma ExtendsIffValid(b: Board, snk: Snake, p: Path, d: Dir)
    requires |snk| >= 1
    ensures Extends(b, snk, p, d) <==> Valid(b, snk, p + [d])
  {
    ComputeSnakeSnoc(b, snk, p, d);
  }

  /** `q` is an extension of `p` exactly when it is `p` plus one letter of
      `ds` whose step succeeds. */
  lemma {:induction false} ExtendPathMembership(b: Board, snk: Snake, p: Path, ds: seq<Dir>, q: Path)
    requires |snk| >= 1
    ensures q in ExtendPath(b, snk, p, ds) <==>
              |q| >= 1 && q[..|q| - 1] == p && q[|q| - 1] in ds && Extends(b, snk, p, q[|q| - 1])
    decreases |ds|
  {
    if ds != [] {
      var init, last := ds[..|ds| - 1], ds[|ds| - 1];
      ExtendPathMembership(b, snk, p, init, q);
      assert ds == init + [last];
      if q == p + [last] {
        assert q[..|q| - 1] == p;
      }
      if |q| >= 1 && q[..|q| - 1] == p && q[|q| - 1] == last {
        assert q == q[..|q| - 1] + [q[|q| - 1]];
      }
    }
  }

  /** `q` is in the next level exactly when it is a frontier path plus one
      letter of `ds` whose step succeeds. */
  lemma {:induction false} NextLevelMembership(b: Board, snk: Snake, ps: seq<Path>, ds: seq<Dir>, q: Path)
    requires |snk| >= 1
    ensures q in NextLevel(b, snk, ps, ds) <==>
              |q| >= 1 && q[..|q| - 1] in ps && q[|q| - 1] in ds &&
              Extends(b, snk, q[..|q| - 1], q[|q| - 1])
    decreases |ps|
  {
    if ps != [] {
      var init, last := ps[..|ps| - 1], ps[|ps| - 1];
      NextLevelMembership(b, snk, init, ds, q);
      ExtendPathMembership(b, snk, last, ds, q);
      assert ps == init + [last];
    }
  }

  /** The extensions of `p` over `ds1 + ds2` are those over `ds1`, then
      those over `ds2`: letters are tried in the order given. */
  lemma {:induction false} ExtendPathAppend(b: Board, snk: Snake, p: Path, ds1: seq<Dir>, ds2: seq<Dir>)
    requires |snk| >= 1
    ensures ExtendPath(b, snk, p, ds1 + ds2) ==
              ExtendPath(b, snk, p, ds1) + ExtendPath(b, snk, p, ds2)
    decreases |ds2|
  {
    if ds2 == [] {
      assert ds1 + ds2 == ds1;
    } else {
      var init := ds2[..|ds2| - 1];
      assert (ds1 + ds2)[..|ds1 + ds2| - 1] == ds1 + init;
      ExtendPathAppend(b, snk, p, ds1, init);
    }
  }

  /** One level over `ps + qs` is the level over `ps`, then over `qs`: output
      order follows the frontier's order. */
  lemma {:induction false} NextLevelAppend(b: Board, snk: Snake, ps: seq<Path>, qs: seq<Path>, ds: seq<Dir>)
    requires |snk| >= 1
    ensures NextLevel(b, snk, ps + qs, ds) == NextLevel(b, snk, ps, ds) + NextLevel(b, snk, qs, ds)
    decreases |qs|
  {
    if qs == [] {
      assert ps + qs == ps;
    } else {
      var init := qs[..|qs| - 1];
      assert (ps + qs)[..|ps + qs| - 1] == ps + init;
      NextLevelAppend(b, snk, ps, init, ds);
    }
  }

  /** The search over `ps + qs` is the search over `ps`, then over `qs`. */
  lemma {:induction false} ValidPathsAppend(b: Board, snk: Snake, ps: seq<Path>, qs: seq<Path>, depth: nat, ds: seq<Dir>)
    requires |snk| >= 1
    ensures ValidPaths(b, snk, ps + qs, depth, ds) ==
              ValidPaths(b, snk, ps, depth, ds) + ValidPaths(b, snk, qs, depth, ds)
    decreases depth
  {
    if depth > 0 {
      NextLevelAppend(b, snk, ps, qs, ds);
      ValidPathsAppend(b, snk, NextLevel(b, snk, ps, ds), NextLevel(b, snk, qs, ds), depth - 1, ds);
    }
  }

  /** Shape of the search: after `depth` levels, `q` is in the output exactly
      when it is a frontier path followed by `depth` letters of `ds` and,
      if `depth > 0`, every step of `q` succeeds. */
  lemma {:induction false} ValidPathsMembership(b: Board, snk: Snake, ps: seq<Path>, depth: nat, ds: seq<Dir>, q: Path)
    requires |snk| >= 1
    ensures q in ValidPaths(b, snk, ps, depth, ds) <==>
              |q| >= depth && q[..|q| - depth] in ps &&
              (forall j :: |q| - depth <= j < |q| ==> q[j] in ds) &&
              (depth > 0 ==> Valid(b, snk, q))
    decreases depth
  {
    if depth == 0 {
      assert q[..|q|] == q;
    } else {
      ValidPathsMembership(b, snk, NextLevel(b, snk, ps, ds), depth - 1, ds, q);
      if |q| >= depth - 1 {
        LevelPrefixMembership(b, snk, ps, depth, ds, q);
      }
    }
  }

  /** The step of `ValidPathsMembership`: the `depth - 1` letter prefix of `q`
      lies in the next level exactly when `q` has the shape one level deeper. */
  lemma LevelPrefixMembership(b: Board, snk: Snake, ps: seq<Path>, depth: nat, ds: seq<Dir>, q: Path)
    requires |snk| >= 1 && depth >= 1 && |q| >= depth - 1
    ensures (q[..|q| - depth + 1] in NextLevel(b, snk, ps, ds) &&
             (forall j :: |q| - depth + 1 <= j < |q| ==> q[j] in ds) &&
             (depth > 1 ==> Valid(b, snk, q)))
            <==>
            (|q| >= depth && q[..|q| - depth] in ps &&
             (forall j :: |q| - depth <= j < |q| ==> q[j] in ds) &&
             Valid(b, snk, q))
  {
    var m := |q| - depth + 1;
    var w := q[..m];
    NextLevelMembership(b, snk, ps, ds, w);
    if m >= 1 {
      assert w[..m - 1] == q[..|q| - depth];
      assert w[m - 1] == q[|q| - depth];
      assert w == w[..m - 1] + [w[m - 1]];
      ExtendsIffValid(b, snk, w[..m - 1], w[m - 1]);
      if Valid(b, snk, q) {
        ValidPrefix(b, snk, q, m);
      }
      assert depth == 1 ==> w == q;
    }
  }

  /** At most `|ds|` extensions per path per level. */
  lemma {:induction false} ValidPathsSize(b: Board, snk: Snake, ps: seq<Path>, depth: nat, ds: seq<Dir>)
    requires |snk| >= 1
    ensures |ValidPaths(b, snk, ps, depth, ds)| <= |ps| * Pow(|ds|, depth)
    decreases depth
  {
    if depth > 0 {
      var next := NextLevel(b, snk, ps, ds);
      ValidPathsSize(b, snk, next, depth - 1, ds);
      var k := Pow(|ds|, depth - 1);
      MulMonotone(|next|, |ps| * |ds|, k);
      MulAssociative(|ps|, |ds|, k);
    }
  }

  lemma MulMonotone(x: nat, y: nat, k: nat)
    requires x <= y
    ensures x * k <= y * k
  {
  }

  lemma MulAssociative(x: nat, y: nat, k: nat)
    ensures (x * y) * k == x * (y * k)
  {
  }

  /** Adding one letter to two paths of equal length keeps their order. */
  lemma {:induction false} LexLessSnoc(p: Path, q: Path, d: Dir, e: Dir)
    requires |p| == |q| && LexLess(p, q)
    ensures LexLess(p + [d], q + [e])
    decreases |p|
  {
    assert (p + [d])[0] == p[0] && (q + [e])[0] == q[0];
    if !(Rank(p[0]) < Rank(q[0])) {
      assert (p + [d])[1..] == p[1..] + [d];
      assert (q + [e])[1..] == q[1..] + [e];
      LexLessSnoc(p[1..], q[1..], d, e);
    }
  }

  /** Two one-letter extensions of the same path are ordered by the letter. */
  lemma {:induction false} LexLessLastLetter(p: Path, d: Dir, e: Dir)
    requires Rank(d) < Rank(e)
    ensures LexLess(p + [d], p + [e])
    decreases |p|
  {
    if p != [] {
      assert (p + [d])[1..] == p[1..] + [d];
      assert (p + [e])[1..] == p[1..] + [e];
      LexLessLastLetter(p[1..], d, e);
    }
  }

  lemma {:induction false} LexLessIrreflexive(p: Path)
    ensures !LexLess(p, p)
    decreases |p|
  {
    if p != [] {
      LexLessIrreflexive(p[1..]);
    }
  }

  lemma {:induction false} LexLessAsymmetric(p: Path, q: Path)
    requires LexLess(p, q)
    ensures !LexLess(q, p)
    decreases |p|
  {
    if p != [] && p[0] == q[0] && LexLess(p[1..], q[1..]) {
      LexLessAsymmetric(p[1..], q[1..]);
    }
  }

  /** Two sorted sequences of a path set are concatenated in order when every
      element of the first comes before every element of the second. */
  lemma SortedConcat(xs: seq<Path>, ys: seq<Path>)
    requires LexSorted(xs) && LexSorted(ys)
    requires forall x, y :: x in xs && y in ys ==> LexLess(x, y)
    ensures LexSorted(xs + ys)
  {
    var zs := xs + ys;
    forall i, j | 0 <= i < j < |zs|
      ensures LexLess(zs[i], zs[j])
    {
      if j < |xs| {
        assert zs[i] == xs[i] && zs[j] == xs[j];
      } else if i >= |xs| {
        assert zs[i] == ys[i - |xs|] && zs[j] == ys[j - |xs|];
      } else {
        assert zs[i] in xs && zs[j] in ys;
      }
    }
  }

  /** The extensions of one path come out in lexicographic order when the
      letters are tried in search order. */
  lemma {:induction false} ExtendPathSorted(b: Board, snk: Snake, p: Path, ds: seq<Dir>)
    requires |snk| >= 1 && RankIncreasing(ds)
    ensures LexSorted(ExtendPath(b, snk, p, ds))
    ensures AllOfLength(ExtendPath(b, snk, p, ds), |p| + 1)
    decreases |ds|
  {
    if ds != [] {
      var init, last := ds[..|ds| - 1], ds[|ds| - 1];
      ExtendPathSorted(b, snk, p, init);
      var xs := ExtendPath(b, snk, p, init);
      var ys: seq<Path> := if Extends(b, snk, p, last) then [p + [last]] else [];
      forall x, y | x in xs && y in ys
        ensures LexLess(x, y)
      {
        ExtendPathMembership(b, snk, p, init, x);
        var k :| 0 <= k < |init| && init[k] == x[|x| - 1];
        assert x == p + [x[|x| - 1]];
        LexLessLastLetter(p, x[|x| - 1], last);
      }
      SortedConcat(xs, ys);
      forall q | q in ExtendPath(b, snk, p, ds)
        ensures |q| == |p| + 1
      {
        ExtendPathMembership(b, snk, p, ds, q);
      }
    }
  }

  /** One level keeps a sorted frontier of equal-length paths sorted. */
  lemma {:induction false} NextLevelSorted(b: Board, snk: Snake, ps: seq<Path>, ds: seq<Dir>, n: nat)
    requires |snk| >= 1 && RankIncreasing(ds)
    requires LexSorted(ps) && AllOfLength(ps, n)
    ensures LexSorted(NextLevel(b, snk, ps, ds))
    ensures AllOfLength(NextLevel(b, snk, ps, ds), n + 1)
    decreases |ps|
  {
    if ps != [] {
      var init, last := ps[..|ps| - 1], ps[|ps| - 1];
      assert LexSorted(init) by {
        forall i, j | 0 <= i < j < |init| ensures LexLess(init[i], init[j]) {
          assert init[i] == ps[i] && init[j] == ps[j];
        }
      }
      NextLevelSorted(b, snk, init, ds, n);
      ExtendPathSorted(b, snk, last, ds);
      var xs := NextLevel(b, snk, init, ds);
      var ys := ExtendPath(b, snk, last, ds);
      forall x, y | x in xs && y in ys
        ensures LexLess(x, y)
      {
        LevelOrder(b, snk, ps, ds, n, x, y);
      }
      SortedConcat(xs, ys);
    }
  }

  /** Within one level, the extensions of an earlier frontier path come
      before those of the last one. */
  lemma LevelOrder(b: Board, snk: Snake, ps: seq<Path>, ds: seq<Dir>, n: nat, x: Path, y: Path)
    requires |snk| >= 1 && |ps| >= 1
    requires LexSorted(ps) && AllOfLength(ps, n)
    requires x in NextLevel(b, snk, ps[..|ps| - 1], ds)
    requires y in ExtendPath(b, snk, ps[|ps| - 1], ds)
    ensures LexLess(x, y)
  {
    var init, last := ps[..|ps| - 1], ps[|ps| - 1];
    NextLevelMembership(b, snk, init, ds, x);
    ExtendPathMembership(b, snk, last, ds, y);
    LastFrontierPathLast(ps, n, x, y);
  }

  /** A one-letter extension of an earlier path of a sorted frontier comes
      before any one-letter extension of its last path. */
  lemma LastFrontierPathLast(ps: seq<Path>, n: nat, x: Path, y: Path)
    requires |ps| >= 1 && LexSorted(ps) && AllOfLength(ps, n)
    requires |x| >= 1 && x[..|x| - 1] in ps[..|ps| - 1]
    requires |y| >= 1 && y[..|y| - 1] == ps[|ps| - 1]
    ensures LexLess(x, y)
  {
    var px, last := x[..|x| - 1], ps[|ps| - 1];
    var i :| 0 <= i < |ps| - 1 && ps[..|ps| - 1][i] == px;
    assert ps[i] == px && ps[i] in ps && last in ps;
    assert LexLess(ps[i], ps[|ps| - 1]);
    assert x == px + [x[|x| - 1]];
    assert y == last + [y[|y| - 1]];
    LexLessSnoc(px, last, x[|x| - 1], y[|y| - 1]);
  }

  /** Every level keeps a sorted frontier of equal-length paths sorted. */
  lemma {:induction false} ValidPathsSorted(b: Board, snk: Snake, ps: seq<Path>, depth: nat, ds: seq<Dir>, n: nat)
    requires |snk| >= 1 && RankIncreasing(ds)
    requires LexSorted(ps) && AllOfLength(ps, n)
    ensures LexSorted(ValidPaths(b, snk, ps, depth, ds))
    decreases depth
  {
    if depth > 0 {
      NextLevelSorted(b, snk, ps, ds, n);
      ValidPathsSorted(b, snk, NextLevel(b, snk, ps, ds), depth - 1, ds, n + 1);
    }
  }

  /** The seed layer is one more level of the search, run from the empty path. */
  lemma SearchFromEmptyPath(b: Board, snk: Snake, maxDepth: int)
    requires |snk| >= 1 && maxDepth >= 1
    ensures Search(b, snk, maxDepth) == ValidPaths(b, snk, [[]], maxDepth, Directions)
  {
    assert ValidPaths(b, snk, Seeds(b, snk), 0, Directions) == Seeds(b, snk);
  }

  /** Soundness, completeness and order of the whole search: the result holds
      exactly the paths of `maxDepth` letters whose every step succeeds from
      `snk`, in lexicographic order under U < D < R < L. */
  lemma SearchCorrect(b: Board, snk: Snake, maxDepth: int)
    requires |snk| >= 1 && maxDepth >= 1
    ensures forall p :: p in Search(b, snk, maxDepth) <==> |p| == maxDepth && Valid(b, snk, p)
    ensures LexSorted(Search(b, snk, maxDepth))
  {
    SearchFromEmptyPath(b, snk, maxDepth);
    var empty: Path := [];
    forall p
      ensures p in Search(b, snk, maxDepth) <==> |p| == maxDepth && Valid(b, snk, p)
    {
      ValidPathsMembership(b, snk, [empty], maxDepth, Directions, p);
      if |p| >= maxDepth {
        forall j | |p| - maxDepth <= j < |p| ensures p[j] in Directions {
          assert Directions[Rank(p[j])] == p[j];
        }
      }
    }
    assert RankIncreasing(Directions);
    ValidPathsSorted(b, snk, [empty], maxDepth, Directions, 0);
  }

  /** A sorted sequence is determined by its elements. */
  lemma {:induction false} SortedUnique(xs: seq<Path>, ys: seq<Path>)
    requires LexSorted(xs) && LexSorted(ys)
    requires forall p :: p in xs <==> p in ys
    ensures xs == ys
    decreases |xs|
  {
    if xs == [] {
      assert forall j :: 0 <= j < |ys| ==> ys[j] in xs;
    } else {
      assert xs[0] in ys;
      assert ys != [];
      assert ys[0] in ys;
      if xs[0] != ys[0] {
        var i :| 0 <= i < |xs| && xs[i] == ys[0];
        var j :| 0 <= j < |ys| && ys[j] == xs[0];
        assert LexLess(xs[0], ys[0]);
        assert LexLess(ys[0], xs[0]);
        LexLessAsymmetric(xs[0], ys[0]);
        assert false;
      }
      forall p
        ensures p in xs[1..] <==> p in ys[1..]
      {
        if p in xs[1..] {
          var i :| 0 <= i < |xs[1..]| && xs[1..][i] == p;
          assert xs[i + 1] == p && LexLess(xs[0], p);
          LexLessIrreflexive(p);
          assert p in ys;
          var j :| 0 <= j < |ys| && ys[j] == p;
          assert j != 0 && ys[1..][j - 1] == p;
        }
        if p in ys[1..] {
          var j :| 0 <= j < |ys[1..]| && ys[1..][j] == p;
          assert ys[j + 1] == p && LexLess(ys[0], p);
          LexLessIrreflexive(p);
          assert p in xs;
          var i :| 0 <= i < |xs| && xs[i] == p;
          assert i != 0 && xs[1..][i - 1] == p;
        }
      }
      SortedUnique(xs[1..], ys[1..]);
    }
  }

  /** The search result is the one sorted sequence of the paths of
      `maxDepth` letters whose every step succeeds. */
  lemma SearchIsUnique(b: Board, snk: Snake, maxDepth: int, r: seq<Path>)
    requires |snk| >= 1 && maxDepth >= 1
    ensures r == Search(b, snk, maxDepth) <==>
              (forall p :: p in r <==> |p| == maxDepth && Valid(b, snk, p)) && LexSorted(r)
  {
    SearchCorrect(b, snk, maxDepth);
    if (forall p :: p in r <==> |p| == maxDepth && Valid(b, snk, p)) && LexSorted(r) {
      SortedUnique(r, Search(b, snk, maxDepth));
    }
  }

  /** Depth consistency: every prefix of a result path is in the result of
      the search for that prefix's length. */
  lemma PrefixInShallowerSearch(b: Board, snk: Snake, maxDepth: int, q: Path, k: int)
    requires |snk| >= 1 && maxDepth >= 1
    requires q in Search(b, snk, maxDepth) && 1 <= k <= maxDepth
    ensures |q| == maxDepth && q[..k] in Search(b, snk, k)
  {
    SearchCorrect(b, snk, maxDepth);
    ValidPrefix(b, snk, q, k);
    SearchCorrect(b, snk, k);
  }

  /** The end-to-end example on a 5 x 5 board with the snake
      (2,2),(2,1),(2,0): D would land on the body cell (2,1), so the seed
      layer is U, R, L. */
  lemma SeedExample(snk: Snake)
    requires snk == [Pos(2, 2), Pos(2, 1), Pos(2, 0)]
    ensures Search(Board(5, 5), snk, 1) == [[U], [R], [L]]
  {
    var b := Board(5, 5);
    SeedsUnfold(b, snk);
    assert snk[..2] == [Pos(2, 2), Pos(2, 1)];
    assert NewHead(snk, U) == Pos(2, 3) && Pos(2, 3) !in snk[..2];
    MoveOntoBody(b, snk, D, 1);
    assert NewHead(snk, R) == Pos(3, 2) && Pos(3, 2) !in snk[..2];
    assert NewHead(snk, L) == Pos(1, 2) && Pos(1, 2) !in snk[..2];
  }
}
