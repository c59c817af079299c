/** Aho-Corasick: a trie of byte strings with failure links, searched in one pass. */
module AhoCorasick {
  import opened Bytes
  import opened GlobSyntax
  import opened Sets

  datatype TrieNode = TrieNode(value: int, suffixLink: int, firstChild: int, nextSibling: int, ch: byte)

  const FRESH: TrieNode := TrieNode(-1, -1, -1, -1, 0)

  // ----- The shape of the trie -----

  /** The last node before n whose parent is i, or -1. */
  ghost function LastChild(parent: seq<int>, i: int, n: nat): (r: int)
    requires n <= |parent|
    ensures r == -1 ==> forall j :: 0 <= j < n ==> parent[j] != i
    ensures r != -1 ==> 0 <= r < n && parent[r] == i && forall j :: r < j < n ==> parent[j] != i
  {
    if n == 0 then -1 else if parent[n - 1] == i then n - 1 else LastChild(parent, i, n - 1)
  }

  lemma {:induction false} LastChildPrefix(parent: seq<int>, p: int, i: int, n: nat)
    requires n <= |parent|
    ensures LastChild(parent + [p], i, n) == LastChild(parent, i, n)
  {
    if n > 0 { LastChildPrefix(parent, p, i, n - 1); }
  }

  /** Node j is reached from its parent by its byte. */
  ghost predicate Edge(nodes: seq<TrieNode>, parent: seq<int>, paths: seq<Str>, j: int)
    requires 0 < j < |nodes| == |parent| == |paths|
  {
    0 <= parent[j] < j && paths[j] == paths[parent[j]] + [nodes[j].ch]
  }

  /** The children of each node are chained from the newest to the oldest. */
  ghost predicate Chained(nodes: seq<TrieNode>, parent: seq<int>, i: int)
    requires 0 <= i < |nodes| == |parent|
  {
    && parent[i] < i
    && nodes[i].firstChild == LastChild(parent, i, |nodes|)
    && (i > 0 ==> nodes[i].nextSibling == LastChild(parent, parent[i], i))
  }

  ghost predicate Chains(nodes: seq<TrieNode>, parent: seq<int>) {
    |nodes| == |parent| && forall i :: 0 <= i < |nodes| ==> Chained(nodes, parent, i)
  }

  /** Every node but the root hangs off an earlier one, and no two stand for the same string. */
  ghost predicate Tree(nodes: seq<TrieNode>, parent: seq<int>, paths: seq<Str>) {
    && |parent| == |nodes| && |paths| == |nodes| && |nodes| > 0
    && parent[0] == -1 && paths[0] == []
    && (forall j :: 0 < j < |nodes| ==> Edge(nodes, parent, paths, j))
    && (forall i, j :: 0 <= i < j < |nodes| ==> paths[i] != paths[j])
  }

  /** r is the child of `node` by byte c, or -1 if there is none. */
  ghost predicate IsChild(nodes: seq<TrieNode>, parent: seq<int>, node: int, c: byte, r: int) {
    && (r != -1 ==> 0 < r < |nodes| && r < |parent| && parent[r] == node && nodes[r].ch == c)
    && (r == -1 ==> forall j :: 0 < j < |nodes| && j < |parent| && parent[j] == node ==> nodes[j].ch != c)
  }

  ghost predicate RootTable(rootChildren: seq<int>, nodes: seq<TrieNode>, parent: seq<int>) {
    |rootChildren| == 256 && forall c: byte :: IsChild(nodes, parent, 0, c, rootChildren[c])
  }

  /** A child by byte c exists exactly when the extended string is in the trie. */
  lemma ChildPath(nodes: seq<TrieNode>, parent: seq<int>, paths: seq<Str>, node: int, c: byte, r: int)
    requires Tree(nodes, parent, paths) && 0 <= node < |nodes| && IsChild(nodes, parent, node, c, r)
    ensures r == -1 <==> paths[node] + [c] !in paths
    ensures r != -1 ==> paths[r] == paths[node] + [c]
  {
    if r != -1 {
      assert Edge(nodes, parent, paths, r);
    }
    if paths[node] + [c] in paths {
      var j :| 0 <= j < |paths| && paths[j] == paths[node] + [c];
      assert j > 0;
      assert Edge(nodes, parent, paths, j);
      assert paths[j][..|paths[j]| - 1] == paths[node] && paths[j][|paths[j]| - 1] == c;
      assert paths[parent[j]] == paths[j][..|paths[j]| - 1];
      assert parent[j] == node;
    }
  }

  /** The nodes after a new child of `node` by byte c. */
  function Grown(nodes: seq<TrieNode>, node: nat, c: byte): (r: seq<TrieNode>)
    requires node < |nodes|
    ensures |r| == |nodes| + 1
    ensures forall i :: 0 <= i < |nodes| ==>
      r[i] == if i == node then nodes[i].(firstChild := |nodes|) else nodes[i]
    ensures r[|nodes|] == FRESH.(nextSibling := nodes[node].firstChild, ch := c)
  {
    nodes[node := nodes[node].(firstChild := |nodes|)]
    + [FRESH.(nextSibling := nodes[node].firstChild, ch := c)]
  }

  lemma GrownTree(nodes: seq<TrieNode>, parent: seq<int>, paths: seq<Str>, node: nat, c: byte)
    requires Tree(nodes, parent, paths) && node < |nodes| && paths[node] + [c] !in paths
    ensures Tree(Grown(nodes, node, c), parent + [node], paths + [paths[node] + [c]])
  {
    var r, q, w := Grown(nodes, node, c), parent + [node], paths + [paths[node] + [c]];
    forall j | 0 < j < |r| ensures Edge(r, q, w, j) {
      if j < |nodes| { assert Edge(nodes, parent, paths, j); }
    }
  }

  lemma GrownChains(nodes: seq<TrieNode>, parent: seq<int>, node: nat, c: byte)
    requires Chains(nodes, parent) && node < |nodes|
    ensures Chains(Grown(nodes, node, c), parent + [node])
  {
    var r, q := Grown(nodes, node, c), parent + [node];
    assert Chained(nodes, parent, node);
    forall i | 0 <= i < |r| ensures Chained(r, q, i) {
      LastChildPrefix(parent, node, i, |nodes|);
      LastChildPrefix(parent, node, node, |nodes|);
      if i < |nodes| {
        assert Chained(nodes, parent, i);
        if i > 0 { LastChildPrefix(parent, node, parent[i], i); }
      } else {
        forall j | 0 <= j < |nodes| ensures q[j] != i {
          assert Chained(nodes, parent, j);
        }
      }
    }
  }

  lemma TakeSnoc(text: Str, i: nat)
    requires i < |text|
    ensures text[..i] + [text[i]] == text[..i + 1]
  {
  }

  // ----- Longest suffixes -----

  /** v is the longest string of the trie that is a suffix of w no longer than n. */
  ghost predicate Longest(paths: seq<Str>, w: Str, n: int, v: Str) {
    && v in paths && IsSuffix(v, w) && |v| <= n
    && forall u :: u in paths && IsSuffix(u, w) && |u| <= n ==> |u| <= |v|
  }

  lemma SuffixOfSuffix(a: Str, b: Str, w: Str)
    requires IsSuffix(b, w)
    ensures IsSuffix(a, b) <==> IsSuffix(a, w) && |a| <= |b|
  {
    if |a| <= |b| {
      assert b[|b| - |a|..] == w[|w| - |b|..][|b| - |a|..] == w[|w| - |a|..];
    }
  }

  lemma SuffixSnoc(u: Str, w: Str, c: byte)
    requires u != []
    ensures IsSuffix(u, w + [c]) <==> u[|u| - 1] == c && IsSuffix(u[..|u| - 1], w)
  {
    if |u| <= |w| + 1 {
      assert (w + [c])[|w| + 1 - |u|..] == w[|w| + 1 - |u|..] + [c];
      assert u == u[..|u| - 1] + [u[|u| - 1]];
    }
  }

  /** Every prefix of a string in the trie is in the trie. */
  lemma PrefixClosed(nodes: seq<TrieNode>, parent: seq<int>, paths: seq<Str>, u: Str)
    requires Tree(nodes, parent, paths) && u in paths && u != []
    ensures u[..|u| - 1] in paths
  {
    var j :| 0 <= j < |paths| && paths[j] == u;
    assert Edge(nodes, parent, paths, j);
    assert paths[parent[j]] == u[..|u| - 1];
  }

  /** Two suffixes of one string of the same length are the same string. */
  lemma SameSuffix(a: Str, b: Str, w: Str)
    requires IsSuffix(a, w) && IsSuffix(b, w) && |a| == |b|
    ensures a == b
  {
  }

  /** Following failure links from v, nothing longer than the current node could be extended by c. */
  ghost predicate Stuck(paths: seq<Str>, w: Str, n: int, c: byte, v: Str) {
    && v in paths && IsSuffix(v, w)
    && forall u :: u in paths && IsSuffix(u, w) && |v| < |u| <= n ==> u + [c] !in paths
  }

  lemma StuckStart(paths: seq<Str>, w: Str, n: int, c: byte, v: Str)
    requires Longest(paths, w, n, v)
    ensures Stuck(paths, w, n, c, v)
  {
  }

  lemma StuckStep(paths: seq<Str>, w: Str, n: int, c: byte, v: Str, v': Str)
    requires Stuck(paths, w, n, c, v) && v + [c] !in paths
    requires v != [] && Longest(paths, v, |v| - 1, v')
    ensures Stuck(paths, w, n, c, v')
  {
    SuffixOfSuffix(v', v, w);
    forall u | u in paths && IsSuffix(u, w) && |v'| < |u| <= n ensures u + [c] !in paths {
      if |u| == |v| {
        SameSuffix(u, v, w);
      } else if |u| < |v| {
        SuffixOfSuffix(u, v, w);
      }
    }
  }

  /** The first extensible node on the way gives the longest suffix of the extended string. */
  lemma StuckFound(nodes: seq<TrieNode>, parent: seq<int>, paths: seq<Str>, w: Str, n: int, c: byte, v: Str)
    requires Tree(nodes, parent, paths) && Stuck(paths, w, n, c, v) && |v| <= n && v + [c] in paths
    ensures Longest(paths, w + [c], n + 1, v + [c])
  {
    SuffixSnoc(v + [c], w, c);
    assert (v + [c])[..|v|] == v;
    forall u | u in paths && IsSuffix(u, w + [c]) && |u| <= n + 1 ensures |u| <= |v| + 1 {
      if u != [] {
        SuffixSnoc(u, w, c);
        PrefixClosed(nodes, parent, paths, u);
        assert u == u[..|u| - 1] + [c];
      }
    }
  }

  /** If not even the root can be extended, the longest suffix is the empty string. */
  lemma StuckAtRoot(nodes: seq<TrieNode>, parent: seq<int>, paths: seq<Str>, w: Str, n: int, c: byte)
    requires Tree(nodes, parent, paths) && Stuck(paths, w, n, c, []) && [c] !in paths && 0 <= n
    ensures Longest(paths, w + [c], n + 1, [])
  {
    assert [] + [c] == [c];
    assert (w + [c])[|w| + 1..] == [];
    assert paths[0] == [];
    forall u | u in paths && IsSuffix(u, w + [c]) && |u| <= n + 1 ensures |u| <= 0 {
      if u != [] {
        SuffixSnoc(u, w, c);
        assert u == u[..|u| - 1] + [c];
        PrefixClosed(nodes, parent, paths, u);
      }
    }
  }

  // ----- Breadth-first order -----

  ghost function SetOf(xs: seq<int>): set<int> { set x | x in xs }

  ghost predicate SameShape(a: seq<TrieNode>, b: seq<TrieNode>) {
    |a| == |b| && forall i :: 0 <= i < |a| ==>
      a[i].firstChild == b[i].firstChild && a[i].nextSibling == b[i].nextSibling && a[i].ch == b[i].ch
  }

  lemma ShapeKept(a: seq<TrieNode>, b: seq<TrieNode>, parent: seq<int>, paths: seq<Str>, rootChildren: seq<int>)
    requires SameShape(a, b) && Tree(a, parent, paths) && Chains(a, parent) && RootTable(rootChildren, a, parent)
    ensures Tree(b, parent, paths) && Chains(b, parent) && RootTable(rootChildren, b, parent)
  {
    forall j | 0 < j < |b| ensures Edge(b, parent, paths, j) { assert Edge(a, parent, paths, j); }
    forall i | 0 <= i < |b| ensures Chained(b, parent, i) { assert Chained(a, parent, i); }
    forall c: byte ensures IsChild(b, parent, 0, c, rootChildren[c]) {
      assert IsChild(a, parent, 0, c, rootChildren[c]);
    }
  }

  /** Nodes whose children have been linked are `popped`; the queue holds the other linked nodes,
      shallowest first. */
  ghost predicate Frontier(parent: seq<int>, paths: seq<Str>, queue: seq<int>, popped: set<int>, linked: set<int>) {
    && |parent| == |paths|
    && ByDepth(paths, queue)
    && (forall j :: j in linked <==> j in popped || j in queue)
    && (forall j :: j in popped ==> j !in queue)
    && (forall j :: 0 < j < |parent| ==> (j in linked <==> parent[j] == 0 || parent[j] in popped))
  }

  /** All nodes down to depth d are in `linked`. */
  ghost predicate Covers(paths: seq<Str>, d: nat, linked: set<int>) {
    forall j :: 0 < j < |paths| && |paths[j]| <= d ==> j in linked
  }

  /** None of the first n nodes below idx is in `linked`. */
  ghost predicate Apart(parent: seq<int>, idx: int, n: nat, linked: set<int>) {
    forall j :: 0 <= j < n && j < |parent| && parent[j] == idx ==> j !in linked
  }

  /** The nodes below idx, from the given index on, each once. */
  ghost predicate IsKids(parent: seq<int>, idx: int, from: int, kids: seq<int>) {
    && (forall j :: j in kids <==> 0 < j < |parent| && parent[j] == idx && j >= from)
    && forall a, b :: 0 <= a < b < |kids| ==> kids[a] != kids[b]
  }

  /** The children of idx from n on have been linked; `more` are all linked nodes. */
  ghost predicate Linking(parent: seq<int>, paths: seq<Str>, idx: nat, n: nat, kids: seq<int>,
                          linked: set<int>, more: set<int>) {
    && n <= |parent| == |paths| && 0 < idx < |paths| && idx in more
    && Covers(paths, |paths[idx]|, more) && Apart(parent, idx, n, more)
    && IsKids(parent, idx, n, kids) && more == linked + SetOf(kids)
  }

  lemma LinkingStep(parent: seq<int>, paths: seq<Str>, idx: nat, child: nat, n: nat, kids: seq<int>,
                    linked: set<int>, more: set<int>)
    requires Linking(parent, paths, idx, n, kids, linked, more)
    requires child == LastChild(parent, idx, n) && 0 < child && IsKids(parent, idx, child, kids + [child])
    ensures Linking(parent, paths, idx, child, kids + [child], linked, more + {child})
  {
    JoinSnoc(linked, kids, child);
  }

  lemma JoinSnoc(linked: set<int>, kids: seq<int>, kid: nat)
    ensures linked + SetOf(kids) + {kid} == linked + SetOf(kids + [kid])
  {
  }

  /** Every node no deeper than the front of the queue has its failure link. */
  lemma {:induction false} ShallowLinked(nodes: seq<TrieNode>, parent: seq<int>, paths: seq<Str>,
                                         queue: seq<int>, popped: set<int>, linked: set<int>, j: nat)
    requires Tree(nodes, parent, paths) && Frontier(parent, paths, queue, popped, linked)
    requires 0 < j < |parent| && (queue != [] ==> |paths[j]| <= |paths[queue[0]]|)
    ensures j in linked
  {
    assert Edge(nodes, parent, paths, j);
    if parent[j] != 0 {
      ShallowLinked(nodes, parent, paths, queue, popped, linked, parent[j]);
      assert parent[j] !in queue;
    }
  }

  /** The front of the queue is ready to have its children linked. */
  lemma FrontReady(nodes: seq<TrieNode>, parent: seq<int>, paths: seq<Str>,
                   queue: seq<int>, popped: set<int>, linked: set<int>)
    requires Tree(nodes, parent, paths) && Frontier(parent, paths, queue, popped, linked) && queue != []
    ensures 0 < queue[0] < |paths| && Linking(parent, paths, queue[0], |parent|, [], linked, linked)
  {
    forall j | 0 < j < |paths| && |paths[j]| <= |paths[queue[0]]| ensures j in linked {
      ShallowLinked(nodes, parent, paths, queue, popped, linked, j);
    }
    assert linked + SetOf([]) == linked;
  }

  /** The kids of the front are new to the queue, one deeper than the front. */
  lemma NewKids(nodes: seq<TrieNode>, parent: seq<int>, paths: seq<Str>,
                queue: seq<int>, popped: set<int>, linked: set<int>, kids: seq<int>)
    requires Tree(nodes, parent, paths) && Frontier(parent, paths, queue, popped, linked) && queue != []
    requires forall j :: j in kids <==> 0 < j < |parent| && parent[j] == queue[0]
    ensures queue[0] !in kids && queue[0] !in popped
    ensures forall j :: j in kids ==> j !in queue && j !in popped && |paths[j]| == |paths[queue[0]]| + 1
  {
    assert queue[0] in queue;
    forall j | j in kids ensures j !in queue && j !in popped && |paths[j]| == |paths[queue[0]]| + 1 {
      assert Edge(nodes, parent, paths, j);
      assert j in linked <==> parent[j] == 0 || parent[j] in popped;
    }
  }

  ghost predicate ByDepth(paths: seq<Str>, queue: seq<int>) {
    && (forall a :: 0 <= a < |queue| ==> 0 < queue[a] < |paths|)
    && (forall a, b :: 0 <= a < b < |queue| ==>
         queue[a] != queue[b] && |paths[queue[a]]| <= |paths[queue[b]]| <= |paths[queue[a]]| + 1)
  }

  /** The queue stays in order of depth when the front goes and its kids come. */
  lemma QueueStep(paths: seq<Str>, queue: seq<int>, kids: seq<int>)
    requires ByDepth(paths, queue) && queue != []
    requires forall j :: j in kids ==> j !in queue && 0 < j < |paths| && |paths[j]| == |paths[queue[0]]| + 1
    requires forall a, b :: 0 <= a < b < |kids| ==> kids[a] != kids[b]
    ensures ByDepth(paths, queue[1..] + kids)
  {
    var q, m := queue[1..] + kids, |queue| - 1;
    forall a | 0 <= a < |q| ensures 0 < q[a] < |paths| {
      if a >= m { assert q[a] in kids; }
    }
    forall a, b | 0 <= a < b < |q|
      ensures q[a] != q[b] && |paths[q[a]]| <= |paths[q[b]]| <= |paths[q[a]]| + 1
    {
      if a < m { assert q[a] == queue[a + 1]; } else { assert q[a] == kids[a - m]; }
      if b < m { assert q[b] == queue[b + 1]; } else { assert q[b] == kids[b - m]; }
    }
  }

  /** Popping the front and queueing its children keeps the frontier. */
  lemma FrontierStep(nodes: seq<TrieNode>, parent: seq<int>, paths: seq<Str>,
                     queue: seq<int>, popped: set<int>, linked: set<int>, kids: seq<int>)
    requires Tree(nodes, parent, paths) && Frontier(parent, paths, queue, popped, linked) && queue != []
    requires forall j :: j in kids <==> 0 < j < |parent| && parent[j] == queue[0]
    requires forall a, b :: 0 <= a < b < |kids| ==> kids[a] != kids[b]
    ensures Frontier(parent, paths, queue[1..] + kids, popped + {queue[0]}, linked + SetOf(kids))
  {
    NewKids(nodes, parent, paths, queue, popped, linked, kids);
    QueueStep(paths, queue, kids);
    assert forall j :: j in queue <==> j == queue[0] || j in queue[1..];
  }

  // ----- Values -----

  ghost function Own(best: map<Str, int>, w: Str): int {
    if w in best then best[w] else -1
  }

  /** v is the largest value of a key that is a suffix of w, or -1. */
  ghost predicate Top(best: map<Str, int>, w: Str, v: int) {
    IsBest(v, Ending(best, w))
  }

  ghost function Ending(best: map<Str, int>, w: Str): iset<int> {
    iset k | k in best && IsSuffix(k, w) :: best[k]
  }

  /** The values of the keys that occur in a text. */
  ghost function Occurring(best: map<Str, int>, text: Str): iset<int> {
    iset k | k in best && Contains(text, k) :: best[k]
  }

  lemma ContainsSnoc(t: Str, c: byte, k: Str)
    ensures Contains(t + [c], k) <==> Contains(t, k) || IsSuffix(k, t + [c])
  {
    var t' := t + [c];
    if i :| OccursAt(k, t', i) { OccursSnoc(t, c, k, i); }
    if i :| OccursAt(k, t, i) {
      OccursSnoc(t, c, k, i);
      assert OccursAt(k, t', i);
    }
    if IsSuffix(k, t') {
      assert OccursAt(k, t', |t'| - |k|);
    }
  }

  /** An occurrence in a longer text is one in the text, or at the new end. */
  lemma OccursSnoc(t: Str, c: byte, k: Str, i: int)
    ensures OccursAt(k, t, i) ==> OccursAt(k, t + [c], i)
    ensures OccursAt(k, t + [c], i) ==> OccursAt(k, t, i) || IsSuffix(k, t + [c])
  {
    if 0 <= i && i + |k| <= |t| {
      assert t[i..i + |k|] == (t + [c])[i..i + |k|];
    }
  }

  lemma OccurringSnoc(best: map<Str, int>, t: Str, c: byte, val: int, x: int)
    requires IsBest(val, Occurring(best, t)) && Top(best, t + [c], x)
    ensures IsBest(Max(val, x), Occurring(best, t + [c]))
  {
    forall k | k in best ensures Contains(t + [c], k) <==> Contains(t, k) || IsSuffix(k, t + [c]) {
      ContainsSnoc(t, c, k);
    }
    assert Occurring(best, t + [c]) == Occurring(best, t) + Ending(best, t + [c]);
  }

  lemma NothingOccurs(best: map<Str, int>)
    requires [] !in best
    ensures Occurring(best, []) == iset{}
  {
  }

  function Max(a: int, b: int): int { if a < b then b else a }

  /** A string's best key is the string itself or a suffix of its longest proper suffix. */
  lemma TopOfLink(paths: seq<Str>, best: map<Str, int>, w: Str, v: Str, x: int)
    requires w != [] && Longest(paths, w, |w| - 1, v) && best.Keys <= (set p | p in paths)
    requires Top(best, v, x)
    ensures Top(best, w, Max(Own(best, w), x))
  {
    var vals, sub := Ending(best, w), Ending(best, v);
    forall k | k in best && IsSuffix(k, w) ensures best[k] <= Max(Own(best, w), x) {
      if |k| == |w| {
        assert k == w;
      } else {
        assert k in best.Keys;
        SuffixOfSuffix(k, v, w);
        assert best[k] in sub;
      }
    }
    forall k | k in best && IsSuffix(k, v) ensures best[k] in vals {
      SuffixOfSuffix(k, v, w);
    }
    assert w[0..] == w;
    assert w in best ==> best[w] in vals;
  }

  /** The keys ending a text are the keys ending its longest suffix in the trie. */
  lemma TopOfLongest(paths: seq<Str>, best: map<Str, int>, w: Str, v: Str, x: int)
    requires Longest(paths, w, |w|, v) && best.Keys <= (set p | p in paths) && Top(best, v, x)
    ensures Top(best, w, x)
  {
    forall k | k in best ensures IsSuffix(k, v) <==> IsSuffix(k, w) {
      assert k in best.Keys;
      SuffixOfSuffix(k, v, w);
    }
    assert Ending(best, v) == Ending(best, w);
  }

  predicate CanHandle(pat: Str) {
    var p := if pat != [] && pat[0] == STAR then pat[1..] else pat;
    var q := if p != [] && p[|p| - 1] == STAR then p[..|p| - 1] else p;
    q != [] && IsLiteral(q)
  }

  /** No byte of the pattern is special. */
  predicate IsLiteral(pat: Str) {
    forall i :: 0 <= i < |pat| ==> pat[i] != STAR && pat[i] != QUESTION && pat[i] != LBRACKET && pat[i] != BACKSLASH
  }

  /** The pattern without its stars. */
  function Unstarred(pat: Str): Str {
    if pat == [] then [] else
      Unstarred(pat[..|pat| - 1]) + (if pat[|pat| - 1] == STAR then [] else [pat[|pat| - 1]])
  }

  /** "foo" is searched for as "\0foo\0", "*foo" as "foo\0", "foo*" as "\0foo" and "*foo*" as "foo". */
  function Key(pat: Str): Str
    requires pat != []
  {
    (if pat[0] == STAR then [] else [0]) + Unstarred(pat) + (if pat[|pat| - 1] == STAR then [] else [0])
  }

  lemma {:induction false} UnstarredKeeps(pat: Str, i: int)
    requires 0 <= i < |pat| && pat[i] != STAR
    ensures Unstarred(pat) != []
    decreases |pat|
  {
    if i < |pat| - 1 { UnstarredKeeps(pat[..|pat| - 1], i); }
  }

  lemma KeyNotEmpty(pat: Str)
    requires CanHandle(pat)
    ensures pat != [] && Key(pat) != []
  {
    var p := if pat != [] && pat[0] == STAR then pat[1..] else pat;
    var d := |pat| - |p|;
    assert p[0] != STAR;
    assert pat[d] == p[0];
    UnstarredKeeps(pat, d);
  }

  class AhoCorasick {
    var rootChildren: seq<int>
    var nodes: seq<TrieNode>
    ghost var parent: seq<int>
    ghost var paths: seq<Str>
    /** The largest value added under each key. */
    ghost var best: map<Str, int>

    constructor ()
      ensures Building() && best == map[]
    {
      rootChildren, nodes, parent, paths, best := [], [], [], [], map[];
    }

    ghost predicate Trie() reads this {
      && Tree(nodes, parent, paths) && Chains(nodes, parent) && RootTable(rootChildren, nodes, parent)
      && [] !in best && best.Keys <= (set p | p in paths)
    }

    /** Before compile(): each node carries the best value of its own string. */
    ghost predicate Building() reads this {
      if nodes == [] then best == map[]
      else Trie() && forall i :: 0 <= i < |nodes| ==> Unlinked(i)
    }

    ghost predicate Unlinked(i: int)
      reads this
      requires 0 <= i < |nodes| && |paths| == |nodes|
    {
      nodes[i].value == Own(best, paths[i]) && nodes[i].suffixLink == -1
    }

    /** The failure link points to the longest proper suffix in the trie, and the value is the
        best over all suffixes. */
    ghost predicate Linked(i: int)
      reads this
      requires 0 <= i < |nodes| && |paths| == |nodes|
    {
      && 0 <= nodes[i].suffixLink < |nodes|
      && Longest(paths, paths[i], |paths[i]| - 1, paths[nodes[i].suffixLink])
      && Top(best, paths[i], nodes[i].value)
    }

    /** After compile(). */
    ghost predicate Compiled() reads this {
      if nodes == [] then best == map[]
      else Trie() && Unlinked(0) && forall i :: 0 < i < |nodes| ==> Linked(i)
    }

    method FindChild(node: nat, c: byte) returns (r: int)
      requires nodes != [] && Trie() && node < |nodes|
      ensures IsChild(nodes, parent, node, c, r)
    {
      if node == 0 { return rootChildren[c]; }
      assert Chained(nodes, parent, node);
      r := nodes[node].firstChild;
      ghost var n: nat := |nodes|;
      while r != -1
        invariant 0 <= n <= |nodes| && r == LastChild(parent, node, n)
        invariant forall j :: n <= j < |nodes| && parent[j] == node ==> nodes[j].ch != c
        decreases n
      {
        if nodes[r].ch == c { return; }
        n := r;
        assert Chained(nodes, parent, r);
        r := nodes[r].nextSibling;
      }
    }

    method AddChild(node: nat, c: byte) returns (child: nat)
      requires nodes != [] && Building() && node < |nodes|
      modifies this`rootChildren, this`nodes, this`parent, this`paths
      ensures nodes != [] && Building() && old(paths) <= paths
      ensures child < |nodes| && paths[child] == old(paths[node]) + [c]
    {
      var found := FindChild(node, c);
      ChildPath(nodes, parent, paths, node, c, found);
      if found != -1 { return found; }
      child := |nodes|;
      var sibling := nodes[node].firstChild;
      GrownTree(nodes, parent, paths, node, c);
      GrownChains(nodes, parent, node, c);
      ghost var grown := Grown(nodes, node, c);
      nodes := nodes + [FRESH];
      nodes := nodes[child := nodes[child].(nextSibling := sibling, ch := c)];
      nodes := nodes[node := nodes[node].(firstChild := child)];
      assert nodes == grown;
      parent := parent + [node];
      paths := paths + [paths[node] + [c]];
      if node == 0 { rootChildren := rootChildren[c := child]; }
      forall i | 0 <= i < |nodes| ensures Unlinked(i) {
        if i < child { assert old(Unlinked(i)); }
      }
    }
  
    /** Walks the pattern's key down the trie, adding the nodes that are missing. */
    method Insert(pat: Str) returns (idx: nat)
      requires nodes != [] && Building() && CanHandle(pat) && pat != []
      modifies this`rootChildren, this`nodes, this`parent, this`paths
      ensures nodes != [] && Building() && idx < |nodes| && paths[idx] == Key(pat)
    {
      idx := 0;
      if pat[0] != STAR {
        idx := AddChild(idx, 0);
      }
      ghost var head: Str := if pat[0] == STAR then [] else [0];
      for i := 0 to |pat|
        invariant nodes != [] && Building()
        invariant idx < |nodes| && paths[idx] == head + Unstarred(pat[..i])
      {
        assert pat[..i + 1][..i] == pat[..i];
        if pat[i] != STAR {
          idx := AddChild(idx, pat[i]);
        }
      }
      assert pat[..|pat|] == pat;
      if pat[|pat| - 1] != STAR {
        idx := AddChild(idx, 0);
      }
    }

    method Add(pat: Str, val: int)
      requires Building() && CanHandle(pat) && val >= 0
      modifies this
      ensures Building()
      ensures best == old(best)[Key(pat) := Max(Own(old(best), Key(pat)), val)]
    {
      KeyNotEmpty(pat);
      if nodes == [] {
        rootChildren := seq(256, _ => -1);
        nodes := [FRESH];
        parent, paths := [-1], [[]];
      }
      var idx := Insert(pat);
      RaiseValue(idx, val);
    }

    method RaiseValue(idx: nat, val: int)
      requires nodes != [] && Building() && 0 < idx < |nodes|
      modifies this`nodes, this`best
      ensures nodes != [] && Building()
      ensures best == old(best)[paths[idx] := Max(Own(old(best), paths[idx]), val)]
    {
      assert Unlinked(idx);
      ghost var before := nodes;
      nodes := nodes[idx := nodes[idx].(value := Max(nodes[idx].value, val))];
      ShapeKept(before, nodes, parent, paths, rootChildren);
      best := best[paths[idx] := Max(Own(best, paths[idx]), val)];
      forall i | 0 <= i < |nodes| ensures Unlinked(i) {
        assert old(Unlinked(i));
        if i < idx { assert paths[i] != paths[idx]; } else if idx < i { assert paths[idx] != paths[i]; }
      }
    }

    // ----- Failure links -----

    /** Exactly the nodes in `linked` have their final link and value. */
    ghost predicate Partial(linked: set<int>) reads this {
      && Trie() && Unlinked(0)
      && forall i :: 0 < i < |nodes| ==> if i in linked then Linked(i) else Unlinked(i)
    }

    method SetLink(child: nat, suffix: nat, ghost linked: set<int>)
      requires Partial(linked) && 0 < child < |nodes| && child !in linked
      requires suffix < |nodes| && (suffix == 0 || suffix in linked)
      requires Longest(paths, paths[child], |paths[child]| - 1, paths[suffix])
      modifies this`nodes
      ensures |nodes| == old(|nodes|) && Partial(linked + {child})
    {
      ghost var before := nodes;
      if suffix == 0 {
        assert Unlinked(0);
        assert Top(best, paths[0], nodes[0].value);
      } else {
        assert Linked(suffix);
      }
      assert Unlinked(child);
      TopOfLink(paths, best, paths[child], paths[suffix], nodes[suffix].value);
      var value := Max(nodes[child].value, nodes[suffix].value);
      nodes := nodes[child := nodes[child].(suffixLink := suffix, value := value)];
      ShapeKept(before, nodes, parent, paths, rootChildren);
      forall i | 0 < i < |nodes| ensures if i in linked + {child} then Linked(i) else Unlinked(i) {
        if i != child { assert if i in linked then old(Linked(i)) else old(Unlinked(i)); }
      }
    }

    /** Follows the parent's failure links to the first node that can be extended by the same byte. */
    method FindSuffix(idx: nat, c: byte, ghost linked: set<int>) returns (suffix: nat)
      requires Partial(linked) && 0 < idx < |nodes| && idx in linked
      requires Covers(paths, |paths[idx]|, linked)
      ensures suffix < |nodes| && (suffix == 0 || suffix in linked)
      ensures Longest(paths, paths[idx] + [c], |paths[idx]|, paths[suffix])
    {
      assert Edge(nodes, parent, paths, idx) && Linked(idx);
      ghost var w := paths[idx];
      ghost var n := |w| - 1;
      suffix := nodes[idx].suffixLink;
      StuckStart(paths, w, n, c, paths[suffix]);
      var next := FindChild(suffix, c);
      while suffix != 0 && next == -1
        invariant suffix < |nodes| && |paths[suffix]| <= n && Stuck(paths, w, n, c, paths[suffix])
        invariant IsChild(nodes, parent, suffix, c, next)
        decreases |paths[suffix]|
      {
        ChildPath(nodes, parent, paths, suffix, c, next);
        assert paths[0] != paths[suffix];
        assert suffix in linked && Linked(suffix);
        StuckStep(paths, w, n, c, paths[suffix], paths[nodes[suffix].suffixLink]);
        suffix := nodes[suffix].suffixLink;
        next := FindChild(suffix, c);
      }
      ChildPath(nodes, parent, paths, suffix, c, next);
      if next != -1 {
        StuckFound(nodes, parent, paths, w, n, c, paths[suffix]);
        suffix := next;
      } else {
        assert [] + [c] == [c];
        StuckAtRoot(nodes, parent, paths, w, n, c);
      }
    }

    method LinkChild(idx: nat, child: nat, ghost linked: set<int>)
      requires Partial(linked) && 0 < child < |nodes| && child !in linked && parent[child] == idx
      requires 0 < idx < |nodes| && idx in linked
      requires Covers(paths, |paths[idx]|, linked)
      modifies this`nodes
      ensures |nodes| == old(|nodes|) && Partial(linked + {child})
    {
      assert Edge(nodes, parent, paths, child);
      var suffix := FindSuffix(idx, nodes[child].ch, linked);
      SetLink(child, suffix, linked);
    }

    /** Takes the next child off a sibling chain. */
    lemma NextKid(idx: int, child: nat, n: nat, kids: seq<int>)
      requires nodes != [] && Trie() && n <= |nodes| && 0 <= idx < |nodes|
      requires IsKids(parent, idx, n, kids) && child == LastChild(parent, idx, n)
      ensures 0 < child < n && parent[child] == idx && child !in kids
      ensures IsKids(parent, idx, child, kids + [child])
      ensures nodes[child].nextSibling == LastChild(parent, idx, child)
    {
      assert Chained(nodes, parent, child);
    }

    lemma FirstKid(idx: int)
      requires nodes != [] && Trie() && 0 <= idx < |nodes|
      ensures nodes[idx].firstChild == LastChild(parent, idx, |nodes|)
      ensures IsKids(parent, idx, |nodes|, [])
    {
      assert Chained(nodes, parent, idx);
    }

    method LinkNext(idx: nat, child: nat, kids: seq<int>, ghost n: nat, ghost linked: set<int>, ghost more: set<int>)
      requires nodes != [] && Partial(more) && Linking(parent, paths, idx, n, kids, linked, more)
      requires child == LastChild(parent, idx, n)
      modifies this`nodes
      ensures |nodes| == old(|nodes|) && child < n && Partial(more + {child})
      ensures Linking(parent, paths, idx, child, kids + [child], linked, more + {child})
      ensures nodes[child].nextSibling == LastChild(parent, idx, child)
    {
      NextKid(idx, child, n, kids);
      LinkingStep(parent, paths, idx, child, n, kids, linked, more);
      LinkChild(idx, child, more);
      NextKid(idx, child, n, kids);
    }

    method LinkChildren(idx: nat, ghost linked: set<int>) returns (kids: seq<int>)
      requires nodes != [] && Partial(linked) && Linking(parent, paths, idx, |nodes|, [], linked, linked)
      modifies this`nodes
      ensures |nodes| == old(|nodes|) && Partial(linked + SetOf(kids)) && IsKids(parent, idx, 0, kids)
    {
      kids := [];
      FirstKid(idx);
      var child := nodes[idx].firstChild;
      ghost var n: nat, more: set<int> := |nodes|, linked;
      while child != -1
        invariant |nodes| == old(|nodes|) && n <= |nodes| && Partial(more)
        invariant Linking(parent, paths, idx, n, kids, linked, more)
        invariant child == LastChild(parent, idx, n)
        decreases n
      {
        LinkNext(idx, child, kids, n, linked, more);
        n, more, kids := child, more + {child}, kids + [child];
        child := nodes[child].nextSibling;
      }
    }

    /** The children of the root fall back to the root. */
    method LinkRoot() returns (queue: seq<int>)
      requires nodes != [] && Building()
      modifies this`nodes
      ensures |nodes| == old(|nodes|) && Partial(SetOf(queue)) && IsKids(parent, 0, 0, queue)
    {
      queue := [];
      FirstKid(0);
      var child := nodes[0].firstChild;
      ghost var n: nat := |nodes|;
      while child != -1
        invariant |nodes| == old(|nodes|) && 0 <= n <= |nodes|
        invariant Partial(SetOf(queue)) && IsKids(parent, 0, n, queue)
        invariant child == LastChild(parent, 0, n)
        decreases n
      {
        NextKid(0, child, n, queue);
        var kid: nat := child;
        assert Edge(nodes, parent, paths, kid);
        assert Longest(paths, paths[kid], 0, paths[0]);
        SetLink(kid, 0, SetOf(queue));
        assert SetOf(queue) + {kid} == SetOf(queue + [kid]);
        NextKid(0, kid, n, queue);
        queue := queue + [kid];
        n := kid;
        child := nodes[kid].nextSibling;
      }
    }

    lemma FirstFrontier(queue: seq<int>)
      requires nodes != [] && Trie() && IsKids(parent, 0, 0, queue)
      ensures Frontier(parent, paths, queue, {}, SetOf(queue))
    {
      forall a | 0 <= a < |queue| ensures 0 < queue[a] < |paths| && |paths[queue[a]]| == 1 {
        assert queue[a] in queue;
        assert Edge(nodes, parent, paths, queue[a]);
      }
    }

    /** Takes the front of the queue and links its children. */
    method LinkFront(queue: seq<int>, ghost popped: set<int>, ghost linked: set<int>) returns (kids: seq<int>)
      requires nodes != [] && Partial(linked) && Frontier(parent, paths, queue, popped, linked) && queue != []
      modifies this`nodes
      ensures |nodes| == old(|nodes|) && Partial(linked + SetOf(kids))
      ensures Frontier(parent, paths, queue[1..] + kids, popped + {queue[0]}, linked + SetOf(kids))
    {
      FrontReady(nodes, parent, paths, queue, popped, linked);
      kids := LinkChildren(queue[0], linked);
      FrontierStep(nodes, parent, paths, queue, popped, linked, kids);
    }

    method Compile()
      requires Building()
      modifies this`nodes
      ensures Compiled()
    {
      if nodes == [] { return; }
      var queue: seq<int> := LinkRoot();
      ghost var popped: set<int>, linked: set<int> := {}, SetOf(queue);
      ghost var all := Below(|nodes|);
      FirstFrontier(queue);
      while queue != []
        invariant |nodes| == old(|nodes|) && Partial(linked)
        invariant Frontier(parent, paths, queue, popped, linked)
        decreases all - popped
      {
        var kids := LinkFront(queue, popped, linked);
        popped, linked := popped + {queue[0]}, linked + SetOf(kids);
        queue := queue[1..] + kids;
      }
      forall i | 0 < i < |nodes| ensures Linked(i) {
        ShallowLinked(nodes, parent, paths, queue, popped, linked, i);
      }
    }

    // ----- Searching -----

    /** After reading t the walk is at t's longest suffix in the trie, with the best key seen. */
    ghost predicate Reached(idx: nat, val: int, t: Str) reads this {
      && idx < |nodes| == |paths| && Longest(paths, t, |t|, paths[idx])
      && val >= -1 && IsBest(val, Occurring(best, t))
    }

    method Walk(idx: nat, val: int, c: byte, ghost t: Str) returns (idx': nat, val': int)
      requires nodes != [] && Compiled() && Reached(idx, val, t)
      ensures Reached(idx', val', t + [c])
    {
      StuckStart(paths, t, |t|, c, paths[idx]);
      var j: int := idx;
      while j != -1
        invariant -1 <= j < |nodes|
        invariant j != -1 ==> Stuck(paths, t, |t|, c, paths[j])
        invariant j == -1 ==> Stuck(paths, t, |t|, c, []) && [c] !in paths
        decreases if j == -1 then 0 else 1 + |paths[j]|
      {
        var child := FindChild(j, c);
        ChildPath(nodes, parent, paths, j, c, child);
        if child != -1 {
          StuckFound(nodes, parent, paths, t, |t|, c, paths[j]);
          assert Linked(child);
          TopOfLongest(paths, best, t + [c], paths[child], nodes[child].value);
          OccurringSnoc(best, t, c, val, nodes[child].value);
          return child, Max(val, nodes[child].value);
        }
        if j == 0 {
          assert Unlinked(0) && [] + [c] == [c];
        } else {
          assert paths[0] != paths[j];
          assert Linked(j);
          StuckStep(paths, t, |t|, c, paths[j], paths[nodes[j].suffixLink]);
        }
        j := nodes[j].suffixLink;
      }
      StuckAtRoot(nodes, parent, paths, t, |t|, c);
      assert Top(best, [], -1);
      TopOfLongest(paths, best, t + [c], [], -1);
      OccurringSnoc(best, t, c, val, -1);
      idx', val' := 0, val;
    }

    method WalkAt(idx: nat, val: int, text: Str, i: nat) returns (idx': nat, val': int)
      requires nodes != [] && Compiled() && i < |text| && Reached(idx, val, text[..i])
      ensures Reached(idx', val', text[..i + 1])
    {
      idx', val' := Walk(idx, val, text[i], text[..i]);
      TakeSnoc(text, i);
    }

    /** AhoCorasick::find: the best key occurring in the text between its two end markers. */
    method Find(str: Str) returns (val: int)
      requires Compiled()
      ensures IsBest(val, Occurring(best, [0] + str + [0]))
    {
      if nodes == [] { return -1; }
      var idx: nat := 0;
      val := -1;
      var text: Str := [0] + str + [0];
      NothingOccurs(best);
      for i := 0 to |text|
        invariant Reached(idx, val, text[..i])
      {
        idx, val := WalkAt(idx, val, text, i);
      }
      assert text[..|text|] == text;
    }
  }
}
