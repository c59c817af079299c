/** Identical code folding: the propagation rounds on the section graph converge to the
    coarsest partition that respects section contents and references. */
module Icf {
  import DigestMap

  type Digest = DigestMap.Digest

  /** Vertex i refers to out[i], in relocation order. */
  datatype Graph = Graph(out: seq<seq<int>>) {
    predicate Valid() {
      forall i :: 0 <= i < |out| ==> forall k :: 0 <= k < |out[i]| ==> 0 <= out[i][k] < |out|
    }
  }

  type Hash = seq<Digest> -> Digest

  // ----- One round -----

  ghost predicate Fits(g: Graph, d: seq<Digest>) { g.Valid() && |d| == |g.out| }

  /** What is hashed for vertex i: its digest and those of the vertices it refers to. */
  function Input(g: Graph, d: seq<Digest>, i: int): (s: seq<Digest>)
    requires Fits(g, d) && 0 <= i < |d|
    ensures |s| == 1 + |g.out[i]| && s[0] == d[i]
    ensures forall k :: 0 <= k < |g.out[i]| ==> s[k + 1] == d[g.out[i][k]]
  {
    [d[i]] + seq(|g.out[i]|, k requires 0 <= k < |g.out[i]| => d[g.out[i][k]])
  }

  ghost function Next(g: Graph, hash: Hash, d: seq<Digest>): (r: seq<Digest>)
    requires Fits(g, d)
    ensures |r| == |d| && forall i :: 0 <= i < |d| ==> r[i] == hash(Input(g, d, i))
  {
    seq(|d|, i requires 0 <= i < |d| => hash(Input(g, d, i)))
  }

  ghost function Round(g: Graph, hash: Hash, d: seq<Digest>, n: nat): (r: seq<Digest>)
    requires Fits(g, d)
    ensures |r| == |d|
  {
    if n == 0 then d else Next(g, hash, Round(g, hash, d, n - 1))
  }

  /** No two different inputs of this round hash alike. */
  ghost predicate NoCollision(g: Graph, hash: Hash, d: seq<Digest>)
    requires Fits(g, d)
  {
    forall i, j :: 0 <= i < |d| && 0 <= j < |d| && hash(Input(g, d, i)) == hash(Input(g, d, j)) ==>
      Input(g, d, i) == Input(g, d, j)
  }

  ghost predicate NeverCollides(g: Graph, hash: Hash, d: seq<Digest>)
    requires Fits(g, d)
  {
    forall n: nat {:trigger NoCollision(g, hash, Round(g, hash, d, n))} ::
      NoCollision(g, hash, Round(g, hash, d, n))
  }

  // ----- Partitions -----

  ghost predicate Finer(a: seq<Digest>, b: seq<Digest>) {
    |a| == |b| && forall i, j :: 0 <= i < |a| && 0 <= j < |a| && a[i] == a[j] ==> b[i] == b[j]
  }

  ghost predicate SamePartition(a: seq<Digest>, b: seq<Digest>) { Finer(a, b) && Finer(b, a) }

  function Classes(d: seq<Digest>): set<Digest> { set x | x in d }

  lemma NextRefines(g: Graph, hash: Hash, d: seq<Digest>)
    requires Fits(g, d) && NoCollision(g, hash, d)
    ensures Finer(Next(g, hash, d), d)
  {
    var r := Next(g, hash, d);
    forall i, j | 0 <= i < |d| && 0 <= j < |d| && r[i] == r[j] ensures d[i] == d[j] {
      assert Input(g, d, i) == Input(g, d, j);
      assert Input(g, d, i)[0] == Input(g, d, j)[0];
    }
  }

  lemma {:induction false} RoundsRefine(g: Graph, hash: Hash, d: seq<Digest>, m: nat, n: nat)
    requires Fits(g, d) && NeverCollides(g, hash, d) && m <= n
    ensures Finer(Round(g, hash, d, n), Round(g, hash, d, m))
  {
    if m < n {
      RoundsRefine(g, hash, d, m, n - 1);
      NextRefines(g, hash, Round(g, hash, d, n - 1));
    }
  }

  /** A round depends only on the partition, not on the digests themselves. */
  lemma NextKeepsSame(g: Graph, hash: Hash, a: seq<Digest>, b: seq<Digest>)
    requires Fits(g, a) && Fits(g, b) && NoCollision(g, hash, a) && Finer(a, b)
    ensures Finer(Next(g, hash, a), Next(g, hash, b))
  {
    var r, s := Next(g, hash, a), Next(g, hash, b);
    forall i, j | 0 <= i < |a| && 0 <= j < |a| && r[i] == r[j] ensures s[i] == s[j] {
      assert Input(g, a, i) == Input(g, a, j);
      SameInputs(g, a, b, i, j);
    }
  }

  lemma SameInputs(g: Graph, a: seq<Digest>, b: seq<Digest>, i: int, j: int)
    requires Fits(g, a) && Fits(g, b) && Finer(a, b) && 0 <= i < |a| && 0 <= j < |a|
    requires Input(g, a, i) == Input(g, a, j)
    ensures Input(g, b, i) == Input(g, b, j)
  {
    var x, y := Input(g, b, i), Input(g, b, j);
    assert a[i] == Input(g, a, i)[0] == Input(g, a, j)[0] == a[j];
    forall k | 0 < k < |x| ensures x[k] == y[k] {
      var l := k - 1;
      assert a[g.out[i][l]] == Input(g, a, i)[l + 1] == Input(g, a, j)[l + 1] == a[g.out[j][l]];
      assert x[k] == x[l + 1] && y[k] == y[l + 1];
    }
  }

  // ----- Equal counts mean the partition has settled -----

  lemma {:induction false} FinerHasMore(a: seq<Digest>, b: seq<Digest>)
    requires Finer(a, b)
    ensures |Classes(b)| <= |Classes(a)|
    ensures |Classes(b)| == |Classes(a)| ==> Finer(b, a)
    decreases |a|
  {
    var n := |a| - 1;
    if a != [] {
      var a', b' := a[..n], b[..n];
      FinerHasMore(a', b');
      ClassesSnoc(a);
      ClassesSnoc(b);
      if a[n] in a' {
        var i :| 0 <= i < n && a'[i] == a[n];
        assert b'[i] == b[n];
      }
      if |Classes(b)| == |Classes(a)| {
        FinerSnoc(a, b);
      }
    }
  }

  lemma ClassesSnoc(d: seq<Digest>)
    requires d != []
    ensures var d' := d[..|d| - 1];
      Classes(d) == Classes(d') + {d[|d| - 1]}
    ensures |Classes(d)| == |Classes(d[..|d| - 1])| + if d[|d| - 1] in d[..|d| - 1] then 0 else 1
  {
    var d' := d[..|d| - 1];
    assert d == d' + [d[|d| - 1]];
    assert Classes(d) == Classes(d') + {d[|d| - 1]};
  }

  lemma FinerSnoc(a: seq<Digest>, b: seq<Digest>)
    requires Finer(a, b) && a != [] && Finer(b[..|b| - 1], a[..|a| - 1])
    requires b[|b| - 1] in b[..|b| - 1] <==> a[|a| - 1] in a[..|a| - 1]
    ensures Finer(b, a)
  {
    var n := |a| - 1;
    forall i | 0 <= i < n && b[i] == b[n] ensures a[i] == a[n] {
      assert b[..n][i] == b[n];
      var k :| 0 <= k < n && a[..n][k] == a[n];
      assert b[k] == b[n];
      assert b[..n][k] == b[..n][i];
      assert a[..n][k] == a[..n][i];
    }
    forall i, j | 0 <= i < n && 0 <= j < n && b[i] == b[j] ensures a[i] == a[j] {
      assert b[..n][i] == b[..n][j];
      assert a[..n][i] == a[..n][j];
    }
  }

  /** Once one round leaves the partition alone, so does every later one. */
  lemma {:induction false} SettledForever(g: Graph, hash: Hash, d: seq<Digest>, m: nat, n: nat)
    requires Fits(g, d) && NeverCollides(g, hash, d) && m <= n
    requires SamePartition(Round(g, hash, d, m), Round(g, hash, d, m + 1))
    ensures SamePartition(Round(g, hash, d, m), Round(g, hash, d, n))
    ensures SamePartition(Round(g, hash, d, n), Round(g, hash, d, n + 1))
  {
    if m < n {
      SettledForever(g, hash, d, m, n - 1);
      SettledOnce(g, hash, d, n - 1);
      SameAlong(Round(g, hash, d, m), Round(g, hash, d, n - 1), Round(g, hash, d, n));
    }
  }

  lemma SettledOnce(g: Graph, hash: Hash, d: seq<Digest>, n: nat)
    requires Fits(g, d) && NeverCollides(g, hash, d)
    requires SamePartition(Round(g, hash, d, n), Round(g, hash, d, n + 1))
    ensures SamePartition(Round(g, hash, d, n + 1), Round(g, hash, d, n + 2))
  {
    var a, b := Round(g, hash, d, n), Round(g, hash, d, n + 1);
    assert NoCollision(g, hash, a) && NoCollision(g, hash, b);
    NextKeepsSame(g, hash, a, b);
    NextKeepsSame(g, hash, b, a);
  }

  lemma SameAlong(a: seq<Digest>, b: seq<Digest>, c: seq<Digest>)
    requires SamePartition(a, b) && SamePartition(b, c)
    ensures SamePartition(a, c)
  {
  }

  /** The stopping test is right: equal counts some rounds apart mean the partition never changes again. */
  lemma EqualCountsSettle(g: Graph, hash: Hash, d: seq<Digest>, m: nat, n: nat, k: nat)
    requires Fits(g, d) && NeverCollides(g, hash, d) && m < n && m <= k
    requires |Classes(Round(g, hash, d, m))| == |Classes(Round(g, hash, d, n))|
    ensures SamePartition(Round(g, hash, d, m), Round(g, hash, d, k))
  {
    var a, b, c := Round(g, hash, d, m), Round(g, hash, d, m + 1), Round(g, hash, d, n);
    RoundsRefine(g, hash, d, m, m + 1);
    RoundsRefine(g, hash, d, m + 1, n);
    FinerHasMore(b, a);
    FinerHasMore(c, b);
    SettledForever(g, hash, d, m, k);
  }

  // ----- What the settled partition is -----

  /** The classes respect the first digests, and sections of one class refer, position by
      position, to sections of one class. */
  ghost predicate Consistent(g: Graph, d: seq<Digest>, part: seq<Digest>)
    requires Fits(g, d)
  {
    && Finer(part, d)
    && forall i, j :: 0 <= i < |part| && 0 <= j < |part| && part[i] == part[j] ==> SameTargets(g, part, i, j)
  }

  ghost predicate SameTargets(g: Graph, part: seq<Digest>, i: int, j: int)
    requires Fits(g, part) && 0 <= i < |part| && 0 <= j < |part|
  {
    |g.out[i]| == |g.out[j]| && forall k :: 0 <= k < |g.out[i]| ==> part[g.out[i][k]] == part[g.out[j][k]]
  }

  lemma InputIffTargets(g: Graph, a: seq<Digest>, i: int, j: int)
    requires Fits(g, a) && 0 <= i < |a| && 0 <= j < |a|
    ensures Input(g, a, i) == Input(g, a, j) <==> a[i] == a[j] && SameTargets(g, a, i, j)
  {
    var x, y := Input(g, a, i), Input(g, a, j);
    if x == y {
      forall k | 0 <= k < |g.out[i]| ensures a[g.out[i][k]] == a[g.out[j][k]] {
        assert x[k + 1] == y[k + 1];
      }
      assert x[0] == y[0];
    }
    if a[i] == a[j] && SameTargets(g, a, i, j) {
      forall k | 0 <= k < |x| ensures x[k] == y[k] {
        if k > 0 {
          var l := k - 1;
          assert x[l + 1] == a[g.out[i][l]] == a[g.out[j][l]] == y[l + 1];
        }
      }
    }
  }

  /** Two vertices agree after a round exactly if they and all their targets agreed before it. */
  lemma NextIffTargets(g: Graph, hash: Hash, a: seq<Digest>, i: int, j: int)
    requires Fits(g, a) && NoCollision(g, hash, a) && 0 <= i < |a| && 0 <= j < |a|
    ensures Next(g, hash, a)[i] == Next(g, hash, a)[j] <==> a[i] == a[j] && SameTargets(g, a, i, j)
  {
    InputIffTargets(g, a, i, j);
  }

  lemma SettledIsConsistent(g: Graph, hash: Hash, d: seq<Digest>, n: nat)
    requires Fits(g, d) && NeverCollides(g, hash, d)
    requires Finer(Round(g, hash, d, n), Round(g, hash, d, n + 1))
    ensures Consistent(g, d, Round(g, hash, d, n))
  {
    var part := Round(g, hash, d, n);
    RoundsRefine(g, hash, d, 0, n);
    assert NoCollision(g, hash, part);
    forall i, j | 0 <= i < |part| && 0 <= j < |part| && part[i] == part[j] ensures SameTargets(g, part, i, j) {
      NextIffTargets(g, hash, part, i, j);
    }
  }

  /** No consistent partition is coarser than any round's. */
  lemma {:induction false} ConsistentIsFiner(g: Graph, hash: Hash, d: seq<Digest>, part: seq<Digest>, n: nat)
    requires Fits(g, d) && |part| == |d| && Consistent(g, d, part)
    ensures Finer(part, Round(g, hash, d, n))
  {
    if n > 0 {
      var a := Round(g, hash, d, n - 1);
      ConsistentIsFiner(g, hash, d, part, n - 1);
      forall i, j | 0 <= i < |d| && 0 <= j < |d| && part[i] == part[j]
        ensures Next(g, hash, a)[i] == Next(g, hash, a)[j]
      {
        TargetsFiner(g, part, a, i, j);
        InputIffTargets(g, a, i, j);
      }
    }
  }

  lemma TargetsFiner(g: Graph, a: seq<Digest>, b: seq<Digest>, i: int, j: int)
    requires Fits(g, a) && Fits(g, b) && Finer(a, b) && 0 <= i < |a| && 0 <= j < |a| && SameTargets(g, a, i, j)
    ensures SameTargets(g, b, i, j)
  {
  }

  // ----- Unfoldings -----

  datatype Tree = Tree(root: Digest, children: seq<Tree>)

  /** The unfolding of vertex i to depth n. */
  ghost function Unfold(g: Graph, d: seq<Digest>, i: int, n: nat): Tree
    requires Fits(g, d) && 0 <= i < |d|
    decreases n
  {
    if n == 0 then Tree(d[i], [])
    else Tree(d[i], seq(|g.out[i]|, k requires 0 <= k < |g.out[i]| => Unfold(g, d, g.out[i][k], n - 1)))
  }

  ghost predicate SameUnfold(g: Graph, d: seq<Digest>, i: int, j: int, n: nat)
    requires Fits(g, d) && 0 <= i < |d| && 0 <= j < |d|
  {
    Unfold(g, d, i, n) == Unfold(g, d, j, n)
  }

  ghost predicate SameBranches(g: Graph, d: seq<Digest>, i: int, j: int, n: nat)
    requires Fits(g, d) && 0 <= i < |d| && 0 <= j < |d|
  {
    |g.out[i]| == |g.out[j]| && forall k :: 0 <= k < |g.out[i]| ==> SameUnfold(g, d, g.out[i][k], g.out[j][k], n)
  }

  lemma UnfoldStep(g: Graph, d: seq<Digest>, i: int, j: int, n: nat)
    requires Fits(g, d) && 0 <= i < |d| && 0 <= j < |d|
    ensures SameUnfold(g, d, i, j, n + 1) <==> d[i] == d[j] && SameBranches(g, d, i, j, n)
  {
    var x, y := Unfold(g, d, i, n + 1), Unfold(g, d, j, n + 1);
    if x == y {
      forall k | 0 <= k < |g.out[i]| ensures SameUnfold(g, d, g.out[i][k], g.out[j][k], n) {
        assert x.children[k] == y.children[k];
      }
    }
    if d[i] == d[j] && SameBranches(g, d, i, j, n) {
      forall k | 0 <= k < |x.children| ensures x.children[k] == y.children[k] {
        assert SameUnfold(g, d, g.out[i][k], g.out[j][k], n);
      }
      assert x.children == y.children;
    }
  }

  lemma {:induction false} UnfoldShorter(g: Graph, d: seq<Digest>, i: int, j: int, n: nat)
    requires Fits(g, d) && 0 <= i < |d| && 0 <= j < |d| && SameUnfold(g, d, i, j, n + 1)
    ensures SameUnfold(g, d, i, j, n)
    decreases n
  {
    UnfoldStep(g, d, i, j, n);
    if n > 0 {
      forall k | 0 <= k < |g.out[i]| ensures SameUnfold(g, d, g.out[i][k], g.out[j][k], n - 1) {
        UnfoldShorter(g, d, g.out[i][k], g.out[j][k], n - 1);
      }
      UnfoldStep(g, d, i, j, n - 1);
    }
  }

  lemma UnfoldDeeper(g: Graph, d: seq<Digest>, i: int, j: int, n: nat)
    requires Fits(g, d) && 0 <= i < |d| && 0 <= j < |d|
    ensures SameUnfold(g, d, i, j, n + 1) <==> SameUnfold(g, d, i, j, n) && SameBranches(g, d, i, j, n)
  {
    UnfoldStep(g, d, i, j, n);
    if SameUnfold(g, d, i, j, n + 1) { UnfoldShorter(g, d, i, j, n); }
    if SameUnfold(g, d, i, j, n) {
      assert Unfold(g, d, i, n).root == Unfold(g, d, j, n).root;
    }
  }

  lemma RoundDeeper(g: Graph, hash: Hash, d: seq<Digest>, i: int, j: int, n: nat)
    requires Fits(g, d) && NeverCollides(g, hash, d) && 0 <= i < |d| && 0 <= j < |d|
    ensures Round(g, hash, d, n + 1)[i] == Round(g, hash, d, n + 1)[j] <==>
            Round(g, hash, d, n)[i] == Round(g, hash, d, n)[j] && SameTargets(g, Round(g, hash, d, n), i, j)
  {
    assert NoCollision(g, hash, Round(g, hash, d, n));
    NextIffTargets(g, hash, Round(g, hash, d, n), i, j);
  }

  lemma OneDeeper(g: Graph, hash: Hash, d: seq<Digest>, i: int, j: int, n: nat, a: seq<Digest>)
    requires Fits(g, d) && NeverCollides(g, hash, d) && 0 <= i < |d| && 0 <= j < |d| && a == Round(g, hash, d, n)
    requires SameTargets(g, a, i, j) <==> SameBranches(g, d, i, j, n)
    requires a[i] == a[j] <==> SameUnfold(g, d, i, j, n)
    ensures Round(g, hash, d, n + 1)[i] == Round(g, hash, d, n + 1)[j] <==> SameUnfold(g, d, i, j, n + 1)
  {
    RoundDeeper(g, hash, d, i, j, n);
    UnfoldDeeper(g, d, i, j, n);
  }

  /** A digest after n rounds identifies the unfolding to depth n. */
  lemma {:induction false} DigestIsUnfolding(g: Graph, hash: Hash, d: seq<Digest>, i: int, j: int, n: nat)
    requires Fits(g, d) && NeverCollides(g, hash, d) && 0 <= i < |d| && 0 <= j < |d|
    ensures Round(g, hash, d, n)[i] == Round(g, hash, d, n)[j] <==> SameUnfold(g, d, i, j, n)
    decreases n, 0
  {
    if n == 0 {
      FirstDigest(g, hash, d, i, j);
    } else {
      BranchesAgree(g, hash, d, i, j, n - 1);
      DigestIsUnfolding(g, hash, d, i, j, n - 1);
      OneDeeper(g, hash, d, i, j, n - 1, Round(g, hash, d, n - 1));
    }
  }

  lemma FirstDigest(g: Graph, hash: Hash, d: seq<Digest>, i: int, j: int)
    requires Fits(g, d) && 0 <= i < |d| && 0 <= j < |d|
    ensures Round(g, hash, d, 0)[i] == Round(g, hash, d, 0)[j] <==> SameUnfold(g, d, i, j, 0)
  {
  }

  lemma {:induction false} BranchesAgree(g: Graph, hash: Hash, d: seq<Digest>, i: int, j: int, n: nat)
    requires Fits(g, d) && NeverCollides(g, hash, d) && 0 <= i < |d| && 0 <= j < |d|
    ensures SameTargets(g, Round(g, hash, d, n), i, j) <==> SameBranches(g, d, i, j, n)
    decreases n, 1
  {
    var a := Round(g, hash, d, n);
    if |g.out[i]| == |g.out[j]| {
      forall k | 0 <= k < |g.out[i]|
        ensures a[g.out[i][k]] == a[g.out[j][k]] <==> SameUnfold(g, d, g.out[i][k], g.out[j][k], n)
      {
        DigestIsUnfolding(g, hash, d, g.out[i][k], g.out[j][k], n);
      }
    }
  }

  /** No consistent partition puts more sections together. */
  ghost predicate Coarsest(g: Graph, d: seq<Digest>, part: seq<Digest>)
    requires Fits(g, d)
  {
    forall other :: |other| == |d| && Consistent(g, d, other) ==> Finer(other, part)
  }

  /** Sections are together exactly if their unfoldings agree to every depth. */
  ghost predicate ByUnfolding(g: Graph, d: seq<Digest>, part: seq<Digest>)
    requires Fits(g, d) && |part| == |d|
  {
    forall i, j :: 0 <= i < |d| && 0 <= j < |d| ==>
      (part[i] == part[j] <==> forall n: nat :: SameUnfold(g, d, i, j, n))
  }

  /** The result of the loop. */
  ghost predicate IsFolding(g: Graph, d: seq<Digest>, part: seq<Digest>)
    requires Fits(g, d)
  {
    |part| == |d| && Consistent(g, d, part) && Coarsest(g, d, part) && ByUnfolding(g, d, part)
  }

  lemma RoundIsCoarsest(g: Graph, hash: Hash, d: seq<Digest>, n: nat)
    requires Fits(g, d)
    ensures Coarsest(g, d, Round(g, hash, d, n))
  {
    forall other | |other| == |d| && Consistent(g, d, other) ensures Finer(other, Round(g, hash, d, n)) {
      ConsistentIsFiner(g, hash, d, other, n);
    }
  }

  lemma SettledUnfolds(g: Graph, hash: Hash, d: seq<Digest>, m: nat, n: nat, i: int, j: int)
    requires Fits(g, d) && NeverCollides(g, hash, d) && m < n && 0 <= i < |d| && 0 <= j < |d|
    requires |Classes(Round(g, hash, d, m))| == |Classes(Round(g, hash, d, n))|
    ensures Round(g, hash, d, n)[i] == Round(g, hash, d, n)[j] <==> forall k: nat :: SameUnfold(g, d, i, j, k)
  {
    DigestIsUnfolding(g, hash, d, i, j, n);
    if Round(g, hash, d, n)[i] == Round(g, hash, d, n)[j] {
      RoundsRefine(g, hash, d, m, n);
      forall k: nat ensures SameUnfold(g, d, i, j, k) {
        DigestIsUnfolding(g, hash, d, i, j, k);
        if k <= m {
          RoundsRefine(g, hash, d, k, m);
        } else {
          EqualCountsSettle(g, hash, d, m, n, k);
        }
      }
    }
  }

  lemma SettledIsFolding(g: Graph, hash: Hash, d: seq<Digest>, m: nat, n: nat)
    requires Fits(g, d) && NeverCollides(g, hash, d) && m < n
    requires |Classes(Round(g, hash, d, m))| == |Classes(Round(g, hash, d, n))|
    ensures IsFolding(g, d, Round(g, hash, d, n))
  {
    SettledNext(g, hash, d, m, n);
    SettledIsConsistent(g, hash, d, n);
    RoundIsCoarsest(g, hash, d, n);
    SettledByUnfolding(g, hash, d, m, n);
  }

  lemma SettledNext(g: Graph, hash: Hash, d: seq<Digest>, m: nat, n: nat)
    requires Fits(g, d) && NeverCollides(g, hash, d) && m < n
    requires |Classes(Round(g, hash, d, m))| == |Classes(Round(g, hash, d, n))|
    ensures Finer(Round(g, hash, d, n), Round(g, hash, d, n + 1))
  {
    EqualCountsSettle(g, hash, d, m, n, n);
    EqualCountsSettle(g, hash, d, m, n, n + 1);
  }

  lemma SettledByUnfolding(g: Graph, hash: Hash, d: seq<Digest>, m: nat, n: nat)
    requires Fits(g, d) && NeverCollides(g, hash, d) && m < n
    requires |Classes(Round(g, hash, d, m))| == |Classes(Round(g, hash, d, n))|
    ensures ByUnfolding(g, d, Round(g, hash, d, n))
  {
    var part := Round(g, hash, d, n);
    forall i, j | 0 <= i < |d| && 0 <= j < |d|
      ensures part[i] == part[j] <==> forall k: nat :: SameUnfold(g, d, i, j, k)
    {
      SettledUnfolds(g, hash, d, m, n, i, j);
    }
  }

  // ----- The loop -----

  /** Vertex i's edges are edges[edgeIndices[i]..edgeIndices[i + 1]]. */
  ghost predicate Packs(g: Graph, edges: seq<int>, edgeIndices: seq<int>) {
    && |edgeIndices| == |g.out| + 1
    && (forall i, j :: 0 <= i <= j <= |g.out| ==> 0 <= edgeIndices[i] <= edgeIndices[j] <= |edges|)
    && (forall i :: 0 <= i < |g.out| ==> edges[edgeIndices[i]..edgeIndices[i + 1]] == g.out[i])
  }

  /** propagate(): every vertex hashes its own digest and its targets' into the next vector. */
  method Propagate(cur: seq<Digest>, edges: seq<int>, edgeIndices: seq<int>, hash: Hash, ghost g: Graph)
    returns (next: seq<Digest>)
    requires Fits(g, cur) && Packs(g, edges, edgeIndices)
    ensures next == Next(g, hash, cur)
  {
    next := [];
    for i := 0 to |cur|
      invariant |next| == i && forall j :: 0 <= j < i ==> next[j] == hash(Input(g, cur, j))
    {
      var begin, end := edgeIndices[i], edgeIndices[i + 1];
      ghost var out := edges[begin..end];
      assert out == g.out[i];
      var input := [cur[i]];
      for k := begin to end
        invariant |input| == 1 + k - begin && input == Input(g, cur, i)[..1 + k - begin]
      {
        assert edges[k] == out[k - begin];
        assert Input(g, cur, i)[k - begin + 1] == cur[edges[k]];
        input := input + [cur[edges[k]]];
      }
      assert input == Input(g, cur, i);
      next := next + [hash(input)];
    }
  }

  /** The propagation loop of icf_sections(): three rounds, then a count, until the count
      repeats. It counts at most n + 1 times, or twice if there are no sections. */
  method Converge(first: seq<Digest>, edges: seq<int>, edgeIndices: seq<int>, hash: Hash, ghost g: Graph)
    returns (digests: seq<Digest>, counts: nat)
    requires Fits(g, first) && Packs(g, edges, edgeIndices) && NeverCollides(g, hash, first)
    ensures |digests| == |first| && IsFolding(g, first, digests)
    ensures counts <= 1 + if first == [] then 1 else |first|
    ensures digests == Round(g, hash, first, 3 * counts)
  {
    digests := first;
    counts := 0;
    var numClasses := -1;
    while true
      invariant digests == Round(g, hash, first, 3 * counts)
      invariant Progress(first, digests, numClasses, counts)
      decreases |first| - numClasses
    {
      ghost var m := 3 * counts;
      digests := PropagateThrice(digests, edges, edgeIndices, hash, g, first, m);
      counts := counts + 1;
      var count := |Classes(digests)|;
      ClassesGrow(g, hash, first, m);
      if count == numClasses {
        SettledIsFolding(g, hash, first, m, m + 3);
        return;
      }
      numClasses := count;
    }
  }

  /** The last count, and why there cannot have been many. */
  ghost predicate Progress(first: seq<Digest>, digests: seq<Digest>, numClasses: int, counts: nat) {
    && (if counts == 0 then numClasses == -1 else numClasses == |Classes(digests)|)
    && counts <= numClasses + 1 && (first != [] && counts > 0 ==> counts <= numClasses)
    && numClasses <= |first|
  }

  lemma ClassesGrow(g: Graph, hash: Hash, d: seq<Digest>, m: nat)
    requires Fits(g, d) && NeverCollides(g, hash, d)
    ensures var a, b := |Classes(Round(g, hash, d, m))|, |Classes(Round(g, hash, d, m + 3))|;
      a <= b <= |d| && (d != [] ==> 0 < b)
  {
    RoundsRefine(g, hash, d, m, m + 3);
    FinerHasMore(Round(g, hash, d, m + 3), Round(g, hash, d, m));
    ClassesBound(Round(g, hash, d, m + 3));
  }

  method PropagateThrice(cur: seq<Digest>, edges: seq<int>, edgeIndices: seq<int>, hash: Hash, ghost g: Graph,
                         ghost first: seq<Digest>, ghost m: nat) returns (next: seq<Digest>)
    requires Fits(g, first) && Packs(g, edges, edgeIndices) && cur == Round(g, hash, first, m)
    ensures next == Round(g, hash, first, m + 3)
  {
    next := Propagate(cur, edges, edgeIndices, hash, g);
    assert next == Round(g, hash, first, m + 1);
    next := Propagate(next, edges, edgeIndices, hash, g);
    assert next == Round(g, hash, first, m + 2);
    next := Propagate(next, edges, edgeIndices, hash, g);
  }

  lemma {:induction false} ClassesBound(d: seq<Digest>)
    ensures |Classes(d)| <= |d| && (d != [] ==> 0 < |Classes(d)|)
    decreases |d|
  {
    if d != [] {
      ClassesBound(d[..|d| - 1]);
      ClassesSnoc(d);
      assert d[|d| - 1] in Classes(d);
    }
  }

  // ----- Building the packed graph -----

  /** The references that count: those to sections that take part, in order. */
  ghost function Eligible(targets: seq<int>): (r: seq<int>)
    ensures forall k :: 0 <= k < |r| ==> r[k] != -1
  {
    if targets == [] then [] else
      var last := targets[|targets| - 1];
      Eligible(targets[..|targets| - 1]) + if last == -1 then [] else [last]
  }

  /** The positions below k of references that count. */
  ghost function Counted(targets: seq<int>, k: int): set<int>
    requires k <= |targets|
  {
    set j | 0 <= j < k && targets[j] != -1
  }

  lemma {:induction false} EligibleCount(targets: seq<int>, k: nat)
    requires k <= |targets|
    ensures |Eligible(targets[..k])| == |Counted(targets, k)|
    decreases k
  {
    if k == 0 {
      assert Counted(targets, k) == {};
    } else {
      EligibleCount(targets, k - 1);
      EligibleSnoc(targets, k - 1);
      assert Counted(targets, k) == Counted(targets, k - 1) + if targets[k - 1] == -1 then {} else {k - 1};
    }
  }

  lemma {:induction false} EligiblePrefix(targets: seq<int>, k: nat, n: nat)
    requires k <= n <= |targets|
    ensures Eligible(targets[..k]) <= Eligible(targets[..n])
    decreases n
  {
    if k < n {
      EligiblePrefix(targets, k, n - 1);
      EligibleSnoc(targets, n - 1);
    }
  }

  /** Each reference that counts is listed behind those that count before it, and no other is. */
  lemma EligibleAt(targets: seq<int>, k: nat)
    requires k < |targets|
    ensures |Eligible(targets)| == |Counted(targets, |targets|)|
    ensures targets[k] != -1 ==>
      |Counted(targets, k)| < |Eligible(targets)| && Eligible(targets)[|Counted(targets, k)|] == targets[k]
  {
    assert targets[..|targets|] == targets;
    EligibleCount(targets, |targets|);
    if targets[k] != -1 {
      EligibleCount(targets, k);
      EligibleSnoc(targets, k);
      EligiblePrefix(targets, k + 1, |targets|);
    }
  }

  ghost function EligibleGraph(targets: seq<seq<int>>): (g: Graph)
    ensures |g.out| == |targets| && forall i :: 0 <= i < |targets| ==> g.out[i] == Eligible(targets[i])
  {
    Graph(seq(|targets|, i requires 0 <= i < |targets| => Eligible(targets[i])))
  }

  lemma EligibleSnoc(targets: seq<int>, k: int)
    requires 0 <= k < |targets|
    ensures Eligible(targets[..k + 1]) == Eligible(targets[..k]) + if targets[k] == -1 then [] else [targets[k]]
  {
    assert targets[..k + 1][..k] == targets[..k];
  }

  /** How many edges the first n vertices have together. */
  ghost function Total(targets: seq<seq<int>>, n: nat): nat
    requires n <= |targets|
  {
    if n == 0 then 0 else Total(targets, n - 1) + |Eligible(targets[n - 1])|
  }

  lemma {:induction false} TotalGrows(targets: seq<seq<int>>, m: nat, n: nat)
    requires m <= n <= |targets|
    ensures Total(targets, m) <= Total(targets, n)
  {
    if m < n { TotalGrows(targets, m, n - 1); }
  }

  /** A target of -1 is not eligible for folding. */
  method CountEligible(targets: seq<int>) returns (n: nat)
    ensures n == |Eligible(targets)|
  {
    n := 0;
    for k := 0 to |targets|
      invariant n == |Eligible(targets[..k])|
    {
      EligibleSnoc(targets, k);
      if targets[k] != -1 { n := n + 1; }
    }
    assert targets[..|targets|] == targets;
  }

  /** The counting pass and the prefix sum: vertex i's edges start at edgeIndices[i]. */
  method SumCounts(targets: seq<seq<int>>) returns (edgeIndices: array<int>)
    ensures fresh(edgeIndices) && edgeIndices.Length == |targets| + 1
    ensures forall i :: 0 <= i <= |targets| ==> edgeIndices[i] == Total(targets, i)
  {
    edgeIndices := new int[|targets| + 1](_ => 0);
    for i := 0 to |targets|
      invariant edgeIndices[0] == 0
      invariant forall j :: 0 <= j < i ==> edgeIndices[j + 1] == |Eligible(targets[j])|
    {
      var n := CountEligible(targets[i]);
      edgeIndices[i + 1] := n;
    }
    InclusiveScan(edgeIndices, targets);
  }

  method InclusiveScan(sums: array<int>, ghost targets: seq<seq<int>>)
    requires sums.Length == |targets| + 1 && sums[0] == 0
    requires forall j :: 0 <= j < |targets| ==> sums[j + 1] == |Eligible(targets[j])|
    modifies sums
    ensures forall i :: 0 <= i <= |targets| ==> sums[i] == Total(targets, i)
  {
    for i := 0 to sums.Length - 1
      invariant forall j :: 0 <= j <= i ==> sums[j] == Total(targets, j)
      invariant forall j :: i <= j < |targets| ==> sums[j + 1] == |Eligible(targets[j])|
    {
      TotalNext(targets, i);
      sums[i + 1] := sums[i + 1] + sums[i];
    }
  }

  lemma TotalNext(targets: seq<seq<int>>, i: nat)
    requires i < |targets|
    ensures Total(targets, i + 1) == Total(targets, i) + |Eligible(targets[i])|
  {
  }

  /** The filling pass for one vertex. */
  method FillEdges(edges: array<int>, begin: nat, targets: seq<int>)
    requires begin + |Eligible(targets)| <= edges.Length
    modifies edges
    ensures edges[..][..begin] == old(edges[..])[..begin]
    ensures edges[..][begin..begin + |Eligible(targets)|] == Eligible(targets)
    ensures edges[..][begin + |Eligible(targets)|..] == old(edges[..])[begin + |Eligible(targets)|..]
  {
    var idx := begin;
    for k := 0 to |targets|
      invariant idx == begin + |Eligible(targets[..k])| <= edges.Length
      invariant edges[..begin] == old(edges[..begin])
      invariant edges[begin..idx] == Eligible(targets[..k])
      invariant forall q :: idx <= q < edges.Length ==> edges[q] == old(edges[q])
    {
      EligibleSnoc(targets, k);
      EligibleFits(targets, k + 1);
      if targets[k] != -1 {
        edges[idx] := targets[k];
        idx := idx + 1;
        assert edges[begin..idx] == edges[begin..idx - 1] + [targets[k]];
      }
    }
    assert targets[..|targets|] == targets;
    assert edges[..][..begin] == edges[..begin] && edges[..][begin..idx] == edges[begin..idx];
    assert edges[..][idx..] == old(edges[..])[idx..];
  }

  lemma {:induction false} EligibleFits(targets: seq<int>, k: nat)
    requires k <= |targets|
    ensures |Eligible(targets[..k])| <= |Eligible(targets)|
    decreases |targets| - k
  {
    if k == |targets| {
      assert targets[..k] == targets;
    } else {
      EligibleSnoc(targets, k);
      EligibleFits(targets, k + 1);
    }
  }

  ghost predicate FilledAt(targets: seq<seq<int>>, edges: seq<int>, i: nat)
    requires i < |targets|
  {
    Total(targets, i + 1) <= |edges| && edges[Total(targets, i)..Total(targets, i + 1)] == Eligible(targets[i])
  }

  lemma FilledKept(targets: seq<seq<int>>, was: seq<int>, now: seq<int>, j: nat, i: nat)
    requires j < i <= |targets| && FilledAt(targets, was, j)
    requires Total(targets, i) <= |was| == |now| && was[..Total(targets, i)] == now[..Total(targets, i)]
    ensures FilledAt(targets, now, j)
  {
    TotalGrows(targets, j + 1, i);
    SamePart(was, now, Total(targets, i), Total(targets, j), Total(targets, j + 1));
  }

  lemma SamePart(was: seq<int>, now: seq<int>, n: nat, lo: nat, hi: nat)
    requires lo <= hi <= n <= |was| == |now| && was[..n] == now[..n]
    ensures was[lo..hi] == now[lo..hi]
  {
    assert was[lo..hi] == was[..n][lo..hi] && now[lo..hi] == now[..n][lo..hi];
  }

  ghost predicate FilledTo(targets: seq<seq<int>>, edges: seq<int>, n: nat) {
    n <= |targets| && forall j :: 0 <= j < n ==> FilledAt(targets, edges, j)
  }

  lemma FilledStep(targets: seq<seq<int>>, was: seq<int>, now: seq<int>, i: nat)
    requires FilledTo(targets, was, i) && i < |targets| && Total(targets, i + 1) <= |was| == |now|
    requires was[..Total(targets, i)] == now[..Total(targets, i)]
    requires now[Total(targets, i)..Total(targets, i + 1)] == Eligible(targets[i])
    ensures FilledTo(targets, now, i + 1)
  {
    forall j | 0 <= j < i ensures FilledAt(targets, now, j) {
      FilledKept(targets, was, now, j, i);
    }
  }

  lemma FilledPacks(targets: seq<seq<int>>, edges: seq<int>, edgeIndices: seq<int>)
    requires |edgeIndices| == |targets| + 1 && |edges| == Total(targets, |targets|)
    requires forall j :: 0 <= j <= |targets| ==> edgeIndices[j] == Total(targets, j)
    requires FilledTo(targets, edges, |targets|)
    ensures Packs(EligibleGraph(targets), edges, edgeIndices)
  {
    forall i, j | 0 <= i <= j <= |targets| ensures 0 <= edgeIndices[i] <= edgeIndices[j] <= |edges| {
      TotalGrows(targets, i, j);
      TotalGrows(targets, j, |targets|);
    }
    forall i | 0 <= i < |targets| ensures edges[edgeIndices[i]..edgeIndices[i + 1]] == Eligible(targets[i]) {
      assert FilledAt(targets, edges, i);
    }
  }

  /** gather_edges(): the packed form holds exactly the eligible references of each section. */
  method GatherEdges(targets: seq<seq<int>>) returns (edges: array<int>, edgeIndices: array<int>)
    ensures Packs(EligibleGraph(targets), edges[..], edgeIndices[..])
    ensures edges.Length == Total(targets, |targets|)
  {
    edgeIndices := SumCounts(targets);
    edges := new int[edgeIndices[|targets|]];
    for i := 0 to |targets|
      invariant forall j :: 0 <= j <= |targets| ==> edgeIndices[j] == Total(targets, j)
      invariant FilledTo(targets, edges[..], i)
    {
      TotalGrows(targets, i + 1, |targets|);
      ghost var was := edges[..];
      FillEdges(edges, edgeIndices[i], targets[i]);
      FilledStep(targets, was, edges[..], i);
    }
    FilledPacks(targets, edges[..], edgeIndices[..]);
  }
}
