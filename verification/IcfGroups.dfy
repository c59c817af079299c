/** The grouping step of icf_sections: the settled digests and the leaders elected by the last
    counting round, put together. */
module IcfGroups {
  import Icf
  import DigestMap

  /** The round inserts each section under its digest, and sections have different priorities. */
  ghost predicate Counts(c: DigestMap.Config, digests: seq<Icf.Digest>) {
    && c.Valid() && |c.jobs| == |digests|
    && (forall i :: 0 <= i < |digests| ==> c.jobs[i].digest == digests[i])
    && (forall i, j :: 0 <= i < j < |digests| ==> c.jobs[i].section != c.jobs[j].section)
  }

  /** Sections i and j have the same contents and refer to sections of the same contents, and so
      on to every depth. */
  ghost predicate Identical(g: Icf.Graph, first: seq<Icf.Digest>, i: int, j: int)
    requires Icf.Fits(g, first) && 0 <= i < |first| && 0 <= j < |first|
  {
    forall n: nat :: Icf.SameUnfold(g, first, i, j, n)
  }

  /** Section r is the lowest-priority one of those identical to section i. */
  ghost predicate Leads(g: Icf.Graph, first: seq<Icf.Digest>, c: DigestMap.Config, i: int, r: int)
    requires Icf.Fits(g, first) && |c.jobs| == |first| && 0 <= i < |first|
  {
    && (exists j :: 0 <= j < |first| && c.jobs[j].section == r && Identical(g, first, i, j))
    && (forall j :: 0 <= j < |first| && Identical(g, first, i, j) ==> r <= c.jobs[j].section)
  }

  lemma SameDigest(g: Icf.Graph, first: seq<Icf.Digest>, digests: seq<Icf.Digest>, i: int, j: int)
    requires Icf.Fits(g, first) && Icf.IsFolding(g, first, digests) && 0 <= i < |first| && 0 <= j < |first|
    ensures digests[i] == digests[j] <==> Identical(g, first, i, j)
  {
    assert digests[i] == digests[j] <==> forall n: nat :: Icf.SameUnfold(g, first, i, j, n);
  }

  lemma LeaderLeads(g: Icf.Graph, first: seq<Icf.Digest>, digests: seq<Icf.Digest>, c: DigestMap.Config, i: int, r: int)
    requires Icf.Fits(g, first) && Icf.IsFolding(g, first, digests) && Counts(c, digests) && 0 <= i < |first|
    requires DigestMap.IsLeader(c, digests[i], r)
    ensures Leads(g, first, c, i, r)
  {
    var j :| 0 <= j < |c.jobs| && c.jobs[j] == DigestMap.Job(digests[i], r);
    SameDigest(g, first, digests, i, j);
    forall k | 0 <= k < |first| && Identical(g, first, i, k) ensures r <= c.jobs[k].section {
      SameDigest(g, first, digests, i, k);
    }
  }

  /** Different digests have different leaders. */
  lemma SameLeader(c: DigestMap.Config, digests: seq<Icf.Digest>, d: Icf.Digest, e: Icf.Digest, r: int, q: int)
    requires Counts(c, digests) && DigestMap.IsLeader(c, d, r) && DigestMap.IsLeader(c, e, q)
    ensures r == q <==> d == e
  {
    var a :| 0 <= a < |c.jobs| && c.jobs[a] == DigestMap.Job(d, r);
    var b :| 0 <= b < |c.jobs| && c.jobs[b] == DigestMap.Job(e, q);
    if d != e { assert a != b && c.jobs[a].section != c.jobs[b].section; }
  }

  ghost predicate Elected(c: DigestMap.Config, digests: seq<Icf.Digest>, leaders: seq<int>) {
    |leaders| <= |digests| && forall i :: 0 <= i < |leaders| ==> DigestMap.IsLeader(c, digests[i], leaders[i])
  }

  ghost predicate Led(g: Icf.Graph, first: seq<Icf.Digest>, c: DigestMap.Config, leaders: seq<int>)
    requires Icf.Fits(g, first) && |c.jobs| == |first|
  {
    |leaders| == |first| && forall i :: 0 <= i < |leaders| ==> Leads(g, first, c, i, leaders[i])
  }

  /** Sections share a leader exactly if they are identical. */
  ghost predicate Partitions(g: Icf.Graph, first: seq<Icf.Digest>, leaders: seq<int>)
    requires Icf.Fits(g, first) && |leaders| == |first|
  {
    forall i, j :: 0 <= i < |first| && 0 <= j < |first| ==>
      (leaders[i] == leaders[j] <==> Identical(g, first, i, j))
  }

  lemma ElectedLead(g: Icf.Graph, first: seq<Icf.Digest>, digests: seq<Icf.Digest>, c: DigestMap.Config,
                    leaders: seq<int>)
    requires Icf.Fits(g, first) && Icf.IsFolding(g, first, digests) && Counts(c, digests)
    requires |leaders| == |first| && Elected(c, digests, leaders)
    ensures Led(g, first, c, leaders)
  {
    forall i | 0 <= i < |first| ensures Leads(g, first, c, i, leaders[i]) {
      LeaderLeads(g, first, digests, c, i, leaders[i]);
    }
  }

  lemma ElectedPartition(g: Icf.Graph, first: seq<Icf.Digest>, digests: seq<Icf.Digest>, c: DigestMap.Config,
                         leaders: seq<int>)
    requires Icf.Fits(g, first) && Icf.IsFolding(g, first, digests) && Counts(c, digests)
    requires |leaders| == |first| && Elected(c, digests, leaders)
    ensures Partitions(g, first, leaders)
  {
    forall i, j | 0 <= i < |first| && 0 <= j < |first|
      ensures leaders[i] == leaders[j] <==> Identical(g, first, i, j)
    {
      SameLeader(c, digests, digests[i], digests[j], leaders[i], leaders[j]);
      SameDigest(g, first, digests, i, j);
    }
  }

  /** What count_num_classes() returns is the number of classes that the loop compares. */
  lemma CountIsClasses(c: DigestMap.Config, digests: seq<Icf.Digest>, slots: seq<DigestMap.Slot>,
                       schedule: seq<DigestMap.Turn>)
    requires Counts(c, digests) && DigestMap.Vacant(c, slots)
    requires DigestMap.ByThreads(c, schedule)
    requires DigestMap.Finished(c, DigestMap.Run(c, slots, schedule))
    ensures |DigestMap.Winners(c, DigestMap.Run(c, slots, schedule))| == |Icf.Classes(digests)|
  {
    DigestMap.RoundResult(c, slots, schedule);
    forall d ensures d in DigestMap.Digests(c) <==> d in Icf.Classes(digests) {
      if d in Icf.Classes(digests) {
        var i :| 0 <= i < |digests| && digests[i] == d;
        assert c.jobs[i].digest == d;
      }
    }
    assert DigestMap.Digests(c) == Icf.Classes(digests);
  }

  /** The group step, after a counting round that any schedule played: every section's leader is
      the lowest-priority section identical to it, and sections share a leader exactly if they are
      identical. */
  method Group(c: DigestMap.Config, slots: seq<DigestMap.Slot>, digests: seq<Icf.Digest>, ghost s: DigestMap.State,
               ghost g: Icf.Graph, ghost first: seq<Icf.Digest>) returns (leaders: seq<int>)
    requires Icf.Fits(g, first) && Icf.IsFolding(g, first, digests) && Counts(c, digests)
    requires DigestMap.Inv(c, s) && DigestMap.Finished(c, s) && slots == s.slots
    ensures Led(g, first, c, leaders) && Partitions(g, first, leaders)
  {
    leaders := Elect(c, slots, digests, s);
    ElectedLead(g, first, digests, c, leaders);
    ElectedPartition(g, first, digests, c, leaders);
  }

  /** Looks up every section's leader. */
  method Elect(c: DigestMap.Config, slots: seq<DigestMap.Slot>, digests: seq<Icf.Digest>, ghost s: DigestMap.State)
    returns (leaders: seq<int>)
    requires Counts(c, digests) && DigestMap.Inv(c, s) && DigestMap.Finished(c, s) && slots == s.slots
    ensures |leaders| == |digests| && Elected(c, digests, leaders)
  {
    leaders := [];
    for i := 0 to |digests|
      invariant |leaders| == i && Elected(c, digests, leaders)
    {
      var r := DigestMap.Find(c, slots, digests[i], s, i);
      leaders := leaders + [r];
    }
  }
}
