/** The bookkeeping of `_promix` once a mixture model has assigned every
    state (conformer mode) or every atom (segment mode) to one of `K`
    clusters. The mixture estimation itself is not modelled: `membership`
    and `K` are inputs. */
module Promix {
  import opened Common

  /** A host call: copy state `source` of the object into state `target`
      of object `name` (`create`), or select a list of atom ids (`select_list`). */
  datatype Command = Create(name: string, source: nat, target: nat) | SelectList(name: string, ids: seq<int>)

  /** `'%s_%d' % (prefix, k + 1)`. */
  function ClusterName(prefix: string, k: nat): string {
    prefix + "_" + IntToString(k + 1)
  }

  /** How often cluster `k` occurs in `s`. */
  function Occurrences(s: seq<nat>, k: nat): (n: nat)
    ensures n <= |s|
  {
    if |s| == 0 then 0 else Occurrences(s[..|s| - 1], k) + (if s[|s| - 1] == k then 1 else 0)
  }

  /** Conformer mode: state `i + 1` of the object becomes the next state of
      the object of its cluster, counted by `states_list`. */
  method Conformers(membership: seq<nat>, K: nat, prefix: string) returns (cmds: seq<Command>)
    requires forall i :: 0 <= i < |membership| ==> membership[i] < K
    ensures |cmds| == |membership|
    ensures forall i :: 0 <= i < |membership| ==>
      cmds[i] == Create(ClusterName(prefix, membership[i]), i + 1, Occurrences(membership[..i + 1], membership[i]))
  {
    var counts := new nat[K](_ => 0);
    cmds := [];
    for i := 0 to |membership|
      invariant |cmds| == i
      invariant forall k :: 0 <= k < K ==> counts[k] == Occurrences(membership[..i], k)
      invariant forall j :: 0 <= j < i ==>
        cmds[j] == Create(ClusterName(prefix, membership[j]), j + 1, Occurrences(membership[..j + 1], membership[j]))
    {
      var k := membership[i];
      assert membership[..i + 1][..i] == membership[..i];
      counts[k] := counts[k] + 1;
      cmds := cmds + [Create(ClusterName(prefix, k), i + 1, counts[k])];
    }
  }

  lemma {:induction false} OccurrencesMonotone(s: seq<nat>, i: nat, j: nat, k: nat)
    requires i < j <= |s| && s[j - 1] == k
    ensures Occurrences(s[..i], k) < Occurrences(s[..j], k)
    decreases j - i
  {
    assert s[..j][..j - 1] == s[..j - 1];
    if i < j - 1 {
      OccurrencesGrow(s, i, j - 1, k);
    }
  }

  lemma {:induction false} OccurrencesGrow(s: seq<nat>, i: nat, j: nat, k: nat)
    requires i <= j <= |s|
    ensures Occurrences(s[..i], k) <= Occurrences(s[..j], k)
    decreases j - i
  {
    if i < j {
      assert s[..j][..j - 1] == s[..j - 1];
      OccurrencesGrow(s, i, j - 1, k);
    }
  }

  /** Within one cluster the created states are numbered 1, 2, ... in the
      order of the original states: two states of the same cluster never
      land on the same target state, and the target is at most the
      cluster's size. */
  lemma ConformerStatesDistinct(membership: seq<nat>, i: nat, j: nat)
    requires i < j < |membership| && membership[i] == membership[j]
    ensures 1 <= Occurrences(membership[..i + 1], membership[i]) < Occurrences(membership[..j + 1], membership[j])
    ensures Occurrences(membership[..j + 1], membership[j]) <= Occurrences(membership, membership[j])
  {
    var k := membership[j];
    OccurrencesMonotone(membership, 0, i + 1, k);
    assert membership[..0] == [] && Occurrences([], k) == 0;
    OccurrencesMonotone(membership, i + 1, j + 1, k);
    OccurrencesGrow(membership, j + 1, |membership|, k);
    assert membership[..|membership|] == membership;
  }

  /** `[i for (i, m) in zip(id_list, membership) if m == k]`. */
  function ClusterIds(ids: seq<int>, membership: seq<nat>, k: nat): (r: seq<int>)
    ensures |r| <= |ids| && |r| <= |membership|
  {
    if |ids| == 0 || |membership| == 0 then []
    else (if membership[0] == k then [ids[0]] else []) + ClusterIds(ids[1..], membership[1..], k)
  }

  /** A cluster's list holds exactly the ids zipped with that cluster. */
  lemma {:induction false} ClusterIdsMembers(ids: seq<int>, membership: seq<nat>, k: nat)
    ensures forall x :: x in ClusterIds(ids, membership, k) <==>
      exists j :: 0 <= j < |ids| && j < |membership| && ids[j] == x && membership[j] == k
    decreases |ids|
  {
    if |ids| > 0 && |membership| > 0 {
      ClusterIdsMembers(ids[1..], membership[1..], k);
      var r := ClusterIds(ids, membership, k);
      var rest := ClusterIds(ids[1..], membership[1..], k);
      forall x
        ensures x in r <==> exists j :: 0 <= j < |ids| && j < |membership| && ids[j] == x && membership[j] == k
      {
        if x in rest {
          var j :| 0 <= j < |ids| - 1 && j < |membership| - 1 && ids[1..][j] == x && membership[1..][j] == k;
          assert ids[j + 1] == x && membership[j + 1] == k;
        }
        if exists j :: 0 <= j < |ids| && j < |membership| && ids[j] == x && membership[j] == k {
          var j :| 0 <= j < |ids| && j < |membership| && ids[j] == x && membership[j] == k;
          if j > 0 {
            assert ids[1..][j - 1] == x && membership[1..][j - 1] == k;
          }
        }
      }
    }
  }

  /** Segment mode: one `select_list` of the cluster's atom ids per cluster. */
  method Segments(ids: seq<int>, membership: seq<nat>, K: nat, prefix: string) returns (cmds: seq<Command>)
    ensures |cmds| == K
    ensures forall k :: 0 <= k < K ==> cmds[k] == SelectList(ClusterName(prefix, k), ClusterIds(ids, membership, k))
  {
    cmds := [];
    for k := 0 to K
      invariant |cmds| == k
      invariant forall c :: 0 <= c < k ==> cmds[c] == SelectList(ClusterName(prefix, c), ClusterIds(ids, membership, c))
    {
      cmds := cmds + [SelectList(ClusterName(prefix, k), ClusterIds(ids, membership, k))];
    }
  }

  /** Sum of the cluster sizes for clusters `0 .. K-1`. */
  function TotalSize(ids: seq<int>, membership: seq<nat>, K: nat): nat {
    if K == 0 then 0 else TotalSize(ids, membership, K - 1) + |ClusterIds(ids, membership, K - 1)|
  }

  /** The clusters partition the zipped atoms: when every membership value
      names one of the `K` clusters, the cluster lists together hold each
      of the first `min(|ids|, |membership|)` atom ids exactly once. */
  lemma {:induction false} ClustersPartition(ids: seq<int>, membership: seq<nat>, K: nat)
    requires forall j :: 0 <= j < |membership| ==> membership[j] < K
    ensures TotalSize(ids, membership, K) == (if |ids| <= |membership| then |ids| else |membership|)
    decreases |ids|
  {
    if |ids| == 0 || |membership| == 0 {
      EmptyClusters(ids, membership, K);
    } else {
      ClustersPartition(ids[1..], membership[1..], K);
      SplitTotal(ids, membership, K, membership[0]);
    }
  }

  lemma {:induction false} EmptyClusters(ids: seq<int>, membership: seq<nat>, K: nat)
    requires |ids| == 0 || |membership| == 0
    ensures TotalSize(ids, membership, K) == 0
    decreases K
  {
    if K > 0 {
      EmptyClusters(ids, membership, K - 1);
    }
  }

  /** Peeling off the first atom adds one to exactly one cluster, `m0`. */
  lemma {:induction false} SplitTotal(ids: seq<int>, membership: seq<nat>, K: nat, m0: nat)
    requires |ids| > 0 && |membership| > 0 && membership[0] == m0
    ensures TotalSize(ids, membership, K) ==
      TotalSize(ids[1..], membership[1..], K) + (if m0 < K then 1 else 0)
    decreases K
  {
    if K > 0 {
      var c := K - 1;
      SplitTotal(ids, membership, c, m0);
      ClusterIdsHead(ids, membership, c);
      TotalSizeLast(ids, membership, K);
      TotalSizeLast(ids[1..], membership[1..], K);
      var before, after := TotalSize(ids, membership, c), TotalSize(ids[1..], membership[1..], c);
      var here, there := |ClusterIds(ids, membership, c)|, |ClusterIds(ids[1..], membership[1..], c)|;
      assert before == after + (if m0 < c then 1 else 0);
      assert here == there + (if m0 == c then 1 else 0);
      assert before + here == after + there + (if m0 < K then 1 else 0);
    } else {
      assert TotalSize(ids, membership, 0) == 0 && TotalSize(ids[1..], membership[1..], 0) == 0;
    }
  }

  lemma TotalSizeLast(ids: seq<int>, membership: seq<nat>, K: nat)
    requires K > 0
    ensures TotalSize(ids, membership, K) == TotalSize(ids, membership, K - 1) + |ClusterIds(ids, membership, K - 1)|
  {
  }

  /** The first atom adds one to its own cluster's list and nothing to the others. */
  lemma ClusterIdsHead(ids: seq<int>, membership: seq<nat>, c: nat)
    requires |ids| > 0 && |membership| > 0
    ensures |ClusterIds(ids, membership, c)| ==
      |ClusterIds(ids[1..], membership[1..], c)| + (if membership[0] == c then 1 else 0)
  {
  }

  /** Each cluster list keeps the atoms in their original order. */
  lemma {:induction false} ClusterIdsOrdered(ids: seq<int>, membership: seq<nat>, k: nat, i: nat, j: nat)
    requires i < j < |ids| && j < |membership| && membership[i] == k && membership[j] == k
    ensures exists a, b ::
      0 <= a < b < |ClusterIds(ids, membership, k)| &&
      ClusterIds(ids, membership, k)[a] == ids[i] && ClusterIds(ids, membership, k)[b] == ids[j]
    decreases i
  {
    var rest := ClusterIds(ids[1..], membership[1..], k);
    var r := ClusterIds(ids, membership, k);
    if i == 0 {
      ClusterIdsMembers(ids[1..], membership[1..], k);
      assert ids[1..][j - 1] == ids[j] && membership[1..][j - 1] == k;
      assert ids[j] in rest;
      var b :| 0 <= b < |rest| && rest[b] == ids[j];
      assert r == [ids[0]] + rest;
      assert r[0] == ids[0] && r[b + 1] == ids[j];
    } else {
      ClusterIdsOrdered(ids[1..], membership[1..], k, i - 1, j - 1);
      var a, b :| 0 <= a < b < |rest| && rest[a] == ids[i] && rest[b] == ids[j];
      var h := if membership[0] == k then [ids[0]] else [];
      assert r == h + rest;
      assert r[|h| + a] == ids[i] && r[|h| + b] == ids[j];
    }
  }
}
