/** `select_sspick`: every queried residue is grown into the run of
    consecutive residue numbers around it that share its secondary
    structure (same model, segment, chain and `ss`), each run is recorded
    once per key, and the runs are printed as selection macros. The host
    queries become parameters: `qkeys` lists the `((model, segi, chain,
    ss), resv)` pairs in the order the set is iterated, and `ca(key)` the
    residue numbers of the CA atoms of that key (the `resv_set`). */
module SsPick {
  import opened Common
  import CollapseResi

  datatype SsKey = SsKey(model: string, segi: string, chain: string, ss: string)

  /** `(resv_min, resv_max)`, both ends included. */
  datatype Interval = Interval(lo: int, hi: int)

  predicate Inside(iv: Interval, x: int) {
    iv.lo <= x <= iv.hi
  }

  /** `iv` is the run grown from `resv` in `s`: it contains `resv`, every
      other number in it is in `s`, and neither neighbour of its ends is. */
  ghost predicate IsRun(s: seq<int>, resv: int, iv: Interval) {
    Inside(iv, resv) &&
    (forall x :: iv.lo <= x <= iv.hi && x != resv ==> x in s) &&
    iv.lo - 1 !in s && iv.hi + 1 !in s
  }

  /** A lower bound of all numbers in `s`. */
  function Floor(s: seq<int>): (f: int)
    ensures forall j :: 0 <= j < |s| ==> f <= s[j]
  {
    if |s| == 0 then 0
    else
      var f := Floor(s[1..]);
      assert forall j :: 1 <= j < |s| ==> s[1..][j - 1] == s[j];
      if s[0] < f then s[0] else f
  }

  /** The two `while` loops that move `resv_min` down and `resv_max` up
      while the neighbouring number is in the set. */
  method GrowRun(s: seq<int>, resv: int) returns (iv: Interval)
    ensures IsRun(s, resv, iv)
  {
    var lo := resv;
    while lo - 1 in s
      invariant lo <= resv
      invariant forall x :: lo <= x < resv ==> x in s
      decreases lo - Floor(s)
    {
      lo := lo - 1;
    }
    var hi := resv;
    while hi + 1 in s
      invariant resv <= hi
      invariant forall x :: resv < x <= hi ==> x in s
      decreases Ceiling(s) - hi
    {
      hi := hi + 1;
    }
    iv := Interval(lo, hi);
  }

  /** An upper bound of all numbers in `s`. */
  function Ceiling(s: seq<int>): (c: int)
    ensures forall j :: 0 <= j < |s| ==> s[j] <= c
  {
    if |s| == 0 then 0
    else
      var c := Ceiling(s[1..]);
      assert forall j :: 1 <= j < |s| ==> s[1..][j - 1] == s[j];
      if s[0] > c then s[0] else c
  }

  /** A run is determined by its set and its starting residue: the grown
      interval is the maximal one. */
  lemma RunUnique(s: seq<int>, resv: int, a: Interval, b: Interval)
    requires IsRun(s, resv, a) && IsRun(s, resv, b)
    ensures a == b
  {
    assert a.lo < b.lo ==> b.lo - 1 in s;
    assert b.lo < a.lo ==> a.lo - 1 in s;
    assert a.hi < b.hi ==> a.hi + 1 in s;
    assert b.hi < a.hi ==> b.hi + 1 in s;
  }

  /** Two runs, the second grown from a member of the set lying outside
      the first, are apart: at least one missing number separates them. */
  lemma RunsApart(s: seq<int>, v: int, a: Interval, w: int, b: Interval)
    requires IsRun(s, v, a) && IsRun(s, w, b)
    requires w in s && !Inside(a, w)
    ensures a.hi + 1 < b.lo || b.hi + 1 < a.lo
  {
    if w > a.hi {
      assert w != a.hi + 1;
      assert b.lo <= a.hi + 1 ==> a.hi + 1 in s;
    } else {
      assert w != a.lo - 1;
      assert a.lo - 1 <= b.hi ==> a.lo - 1 in s;
    }
  }

  /** `in_intervals(i, intervals)`. */
  ghost predicate Covers(ivs: seq<Interval>, x: int) {
    exists a :: 0 <= a < |ivs| && Inside(ivs[a], x)
  }

  method InIntervals(x: int, ivs: seq<Interval>) returns (found: bool)
    ensures found <==> Covers(ivs, x)
  {
    for a := 0 to |ivs|
      invariant forall c :: 0 <= c < a ==> !Inside(ivs[c], x)
    {
      if ivs[a].lo <= x <= ivs[a].hi {
        return true;
      }
    }
    return false;
  }

  /** Some queried pair `(key, x)` lies among the first `n`. */
  ghost predicate Queried(qkeys: seq<(SsKey, int)>, n: nat, key: SsKey, x: int) {
    exists j :: 0 <= j < n && j < |qkeys| && qkeys[j] == (key, x)
  }

  /** Some queried pair among the first `n` has `key`. */
  ghost predicate KeySeen(qkeys: seq<(SsKey, int)>, n: nat, key: SsKey) {
    exists j :: 0 <= j < n && j < |qkeys| && qkeys[j].0 == key
  }

  /** Every interval of a key is the run grown from its recorded origin. */
  ghost predicate Grown(s: seq<int>, origins: seq<int>, ivs: seq<Interval>) {
    |origins| == |ivs| && forall a :: 0 <= a < |ivs| ==> IsRun(s, origins[a], ivs[a])
  }

  /** A later interval was grown from a residue no earlier interval covers. */
  ghost predicate Fresh(origins: seq<int>, ivs: seq<Interval>) {
    |origins| == |ivs| && forall a, b :: 0 <= a < b < |ivs| ==> !Inside(ivs[a], origins[b])
  }

  /** `order` lists the dictionary's keys once each. */
  ghost predicate Listed(order: seq<SsKey>, elements: map<SsKey, seq<Interval>>) {
    (forall k :: k in elements <==> k in order) &&
    (forall a, b :: 0 <= a < b < |order| ==> order[a] != order[b])
  }

  /** Each key's intervals are runs grown from fresh origins. */
  ghost predicate RunsKept(ca: SsKey -> seq<int>, elements: map<SsKey, seq<Interval>>, origins: map<SsKey, seq<int>>) {
    elements.Keys == origins.Keys &&
    forall k :: k in elements ==> Grown(ca(k), origins[k], elements[k]) && Fresh(origins[k], elements[k])
  }

  /** Every key holds at least one interval, and each interval grew from a
      residue queried for that key among the first `n` pairs. */
  ghost predicate FromQueries(qkeys: seq<(SsKey, int)>, n: nat, elements: map<SsKey, seq<Interval>>, origins: map<SsKey, seq<int>>) {
    forall k :: k in elements ==>
      k in origins && 0 < |origins[k]| && forall a :: 0 <= a < |origins[k]| ==> Queried(qkeys, n, k, origins[k][a])
  }

  /** Every one of the first `n` queried residues lies in an interval of its key. */
  ghost predicate AllCovered(qkeys: seq<(SsKey, int)>, n: nat, elements: map<SsKey, seq<Interval>>) {
    forall j :: 0 <= j < n && j < |qkeys| ==> qkeys[j].0 in elements && Covers(elements[qkeys[j].0], qkeys[j].1)
  }

  /** The position of the first pair queried for `key`, or `|qkeys|` when
      there is none. */
  function FirstSeen(qkeys: seq<(SsKey, int)>, key: SsKey): (r: nat)
    ensures r <= |qkeys|
    ensures r < |qkeys| ==> qkeys[r].0 == key
    ensures forall j :: 0 <= j < r ==> qkeys[j].0 != key
  {
    if |qkeys| == 0 then 0
    else if qkeys[0].0 == key then 0
    else 1 + FirstSeen(qkeys[1..], key)
  }

  /** `order` lists keys by the position of their first query. */
  ghost predicate SeenOrder(qkeys: seq<(SsKey, int)>, order: seq<SsKey>) {
    forall a, b :: 0 <= a < b < |order| ==> FirstSeen(qkeys, order[a]) < FirstSeen(qkeys, order[b])
  }

  /** The loop over `qkeys` filling `elements` (a dict of lists, kept in
      key insertion order in `order`): a residue already inside one of
      its key's intervals is skipped, any other one is grown into a new
      interval. Every queried residue ends up covered, and the keys are
      exactly the queried ones. */
  method Elements(qkeys: seq<(SsKey, int)>, ca: SsKey -> seq<int>)
    returns (order: seq<SsKey>, elements: map<SsKey, seq<Interval>>, ghost origins: map<SsKey, seq<int>>)
    ensures Listed(order, elements) && RunsKept(ca, elements, origins)
    ensures FromQueries(qkeys, |qkeys|, elements, origins)
    ensures AllCovered(qkeys, |qkeys|, elements)
    ensures forall k :: k in order <==> KeySeen(qkeys, |qkeys|, k)
    ensures SeenOrder(qkeys, order)
  {
    order := [];
    elements := map[];
    origins := map[];
    for i := 0 to |qkeys|
      invariant ElementsInv(qkeys, ca, i, order, elements, origins)
    {
      order, elements, origins := ElementsStep(qkeys, ca, i, order, elements, origins);
    }
    ElementsDone(qkeys, ca, order, elements, origins);
  }

  /** One pass of the loop in `Elements`, on pair `i`. */
  method ElementsStep(qkeys: seq<(SsKey, int)>, ca: SsKey -> seq<int>, i: nat, order: seq<SsKey>,
                      elements: map<SsKey, seq<Interval>>, ghost origins: map<SsKey, seq<int>>)
    returns (order': seq<SsKey>, elements': map<SsKey, seq<Interval>>, ghost origins': map<SsKey, seq<int>>)
    requires i < |qkeys| && ElementsInv(qkeys, ca, i, order, elements, origins)
    ensures ElementsInv(qkeys, ca, i + 1, order', elements', origins')
  {
    var key := qkeys[i].0;
    var resv := qkeys[i].1;
    // `elements.setdefault(key, [])`: the new empty list is only ever
    // stored together with the run appended to it below.
    var element := if key in elements then elements[key] else [];
    ghost var os := if key in origins then origins[key] else [];
    var covered := InIntervals(resv, element);
    if covered {
      KeepStep(qkeys, ca, i, order, elements, origins);
      order', elements', origins' := order, elements, origins;
    } else {
      var iv := GrowRun(ca(key), resv);
      order' := if key in elements then order else order + [key];
      elements' := elements[key := element + [iv]];
      origins' := origins[key := os + [resv]];
      PutStep(qkeys, ca, i, order, elements, origins, iv, order', elements', origins');
    }
  }

  lemma ElementsDone(qkeys: seq<(SsKey, int)>, ca: SsKey -> seq<int>, order: seq<SsKey>,
                     elements: map<SsKey, seq<Interval>>, origins: map<SsKey, seq<int>>)
    requires ElementsInv(qkeys, ca, |qkeys|, order, elements, origins)
    ensures Listed(order, elements) && RunsKept(ca, elements, origins)
    ensures FromQueries(qkeys, |qkeys|, elements, origins)
    ensures AllCovered(qkeys, |qkeys|, elements)
    ensures forall k :: k in order <==> KeySeen(qkeys, |qkeys|, k)
    ensures SeenOrder(qkeys, order)
  {
    KeysQueried(qkeys, order, elements, origins);
  }

  /** The loop invariant of `Elements` after the first `i` pairs. */
  ghost predicate ElementsInv(qkeys: seq<(SsKey, int)>, ca: SsKey -> seq<int>, i: nat, order: seq<SsKey>,
                              elements: map<SsKey, seq<Interval>>, origins: map<SsKey, seq<int>>) {
    i <= |qkeys| &&
    Listed(order, elements) && RunsKept(ca, elements, origins) &&
    FromQueries(qkeys, i, elements, origins) && AllCovered(qkeys, i, elements) &&
    SeenOrder(qkeys, order) && forall a :: 0 <= a < |order| ==> FirstSeen(qkeys, order[a]) < i
  }

  /** Pair `i` whose residue is already covered changes nothing. */
  lemma KeepStep(qkeys: seq<(SsKey, int)>, ca: SsKey -> seq<int>, i: nat, order: seq<SsKey>,
                 elements: map<SsKey, seq<Interval>>, origins: map<SsKey, seq<int>>)
    requires i < |qkeys| && ElementsInv(qkeys, ca, i, order, elements, origins)
    requires Covers(if qkeys[i].0 in elements then elements[qkeys[i].0] else [], qkeys[i].1)
    ensures ElementsInv(qkeys, ca, i + 1, order, elements, origins)
  {
    FromQueriesKeep(qkeys, i, elements, origins);
    CoveredKeep(qkeys, i, elements);
  }

  /** Pair `i` whose residue is not covered appends the run grown from it,
      listing its key if it is new. */
  lemma PutStep(qkeys: seq<(SsKey, int)>, ca: SsKey -> seq<int>, i: nat, order: seq<SsKey>,
                elements: map<SsKey, seq<Interval>>, origins: map<SsKey, seq<int>>, iv: Interval,
                order': seq<SsKey>, elements': map<SsKey, seq<Interval>>, origins': map<SsKey, seq<int>>)
    requires i < |qkeys| && ElementsInv(qkeys, ca, i, order, elements, origins)
    requires !Covers(if qkeys[i].0 in elements then elements[qkeys[i].0] else [], qkeys[i].1)
    requires IsRun(ca(qkeys[i].0), qkeys[i].1, iv)
    requires order' == if qkeys[i].0 in elements then order else order + [qkeys[i].0]
    requires elements' == elements[qkeys[i].0 := (if qkeys[i].0 in elements then elements[qkeys[i].0] else []) + [iv]]
    requires origins' == origins[qkeys[i].0 := (if qkeys[i].0 in origins then origins[qkeys[i].0] else []) + [qkeys[i].1]]
    ensures ElementsInv(qkeys, ca, i + 1, order', elements', origins')
  {
    var key, resv := qkeys[i].0, qkeys[i].1;
    var element := if key in elements then elements[key] else [];
    var os := if key in origins then origins[key] else [];
    GrowStep(ca(key), os, element, resv, iv);
    ListedPut(order, elements, key, element + [iv]);
    if key !in elements {
      FirstSeenAt(qkeys, i, elements);
      SeenOrderPut(qkeys, i, order, key);
    }
    RunsKeptPut(ca, elements, origins, key, element + [iv], os + [resv]);
    FromQueriesPut(qkeys, i, elements, origins, element + [iv], os + [resv]);
    CoveredPut(qkeys, i, elements, element + [iv]);
  }

  /** A key not yet in the dictionary when pair `i` is reached is first
      queried there. */
  lemma FirstSeenAt(qkeys: seq<(SsKey, int)>, i: nat, elements: map<SsKey, seq<Interval>>)
    requires i < |qkeys| && AllCovered(qkeys, i, elements) && qkeys[i].0 !in elements
    ensures FirstSeen(qkeys, qkeys[i].0) == i
  {
  }

  lemma SeenOrderPut(qkeys: seq<(SsKey, int)>, i: nat, order: seq<SsKey>, key: SsKey)
    requires SeenOrder(qkeys, order) && forall a :: 0 <= a < |order| ==> FirstSeen(qkeys, order[a]) < i
    requires FirstSeen(qkeys, key) == i
    ensures SeenOrder(qkeys, order + [key])
    ensures forall a :: 0 <= a < |order + [key]| ==> FirstSeen(qkeys, (order + [key])[a]) < i + 1
  {
  }

  /** Counting pair `i` as seen. */
  lemma SeenStep(qkeys: seq<(SsKey, int)>, i: nat)
    requires i < |qkeys|
    ensures forall k, x :: Queried(qkeys, i, k, x) ==> Queried(qkeys, i + 1, k, x)
    ensures Queried(qkeys, i + 1, qkeys[i].0, qkeys[i].1)
  {
    forall k, x | Queried(qkeys, i, k, x)
      ensures Queried(qkeys, i + 1, k, x)
    {
      var j :| 0 <= j < i && j < |qkeys| && qkeys[j] == (k, x);
      assert j < i + 1;
    }
    assert qkeys[i] == (qkeys[i].0, qkeys[i].1);
  }

  /** Appending a run grown from a residue no interval of its key covers. */
  lemma GrowStep(s: seq<int>, os: seq<int>, ivs: seq<Interval>, resv: int, iv: Interval)
    requires Grown(s, os, ivs) && Fresh(os, ivs)
    requires !Covers(ivs, resv) && IsRun(s, resv, iv)
    ensures Grown(s, os + [resv], ivs + [iv]) && Fresh(os + [resv], ivs + [iv])
    ensures Covers(ivs + [iv], resv)
    ensures forall x :: Covers(ivs, x) ==> Covers(ivs + [iv], x)
  {
    var ivs' := ivs + [iv];
    var os' := os + [resv];
    forall a, b | 0 <= a < b < |ivs'|
      ensures !Inside(ivs'[a], os'[b])
    {
      if b == |ivs| {
        assert ivs'[a] == ivs[a];
      }
    }
    forall x | Covers(ivs, x)
      ensures Covers(ivs', x)
    {
      var a :| 0 <= a < |ivs| && Inside(ivs[a], x);
      assert ivs'[a] == ivs[a];
    }
    assert ivs'[|ivs|] == iv;
  }

  lemma ListedPut(order: seq<SsKey>, elements: map<SsKey, seq<Interval>>, key: SsKey, ivs: seq<Interval>)
    requires Listed(order, elements)
    ensures Listed(if key in elements then order else order + [key], elements[key := ivs])
  {
    if key !in elements {
      var order' := order + [key];
      forall a, b | 0 <= a < b < |order'|
        ensures order'[a] != order'[b]
      {
        if b == |order| {
          assert order[a] in order;
        }
      }
    }
  }

  lemma RunsKeptPut(ca: SsKey -> seq<int>, elements: map<SsKey, seq<Interval>>, origins: map<SsKey, seq<int>>,
                    key: SsKey, ivs: seq<Interval>, os: seq<int>)
    requires RunsKept(ca, elements, origins)
    requires Grown(ca(key), os, ivs) && Fresh(os, ivs)
    ensures RunsKept(ca, elements[key := ivs], origins[key := os])
  {
    var e := elements[key := ivs];
    var o := origins[key := os];
    forall k | k in e
      ensures Grown(ca(k), o[k], e[k]) && Fresh(o[k], e[k])
    {
      if k != key {
        assert e[k] == elements[k] && o[k] == origins[k];
      }
    }
    assert e.Keys == o.Keys;
  }

  lemma FromQueriesKeep(qkeys: seq<(SsKey, int)>, i: nat, elements: map<SsKey, seq<Interval>>, origins: map<SsKey, seq<int>>)
    requires i < |qkeys| && FromQueries(qkeys, i, elements, origins)
    ensures FromQueries(qkeys, i + 1, elements, origins)
  {
    SeenStep(qkeys, i);
  }

  lemma FromQueriesPut(qkeys: seq<(SsKey, int)>, i: nat, elements: map<SsKey, seq<Interval>>, origins: map<SsKey, seq<int>>,
                       ivs: seq<Interval>, os: seq<int>)
    requires i < |qkeys| && FromQueries(qkeys, i, elements, origins) && elements.Keys == origins.Keys
    requires os == (if qkeys[i].0 in origins then origins[qkeys[i].0] else []) + [qkeys[i].1]
    ensures FromQueries(qkeys, i + 1, elements[qkeys[i].0 := ivs], origins[qkeys[i].0 := os])
  {
    var key := qkeys[i].0;
    SeenStep(qkeys, i);
    var o := origins[key := os];
    forall k | k in elements[key := ivs]
      ensures k in o && 0 < |o[k]| && forall a :: 0 <= a < |o[k]| ==> Queried(qkeys, i + 1, k, o[k][a])
    {
      if k == key {
        forall a | 0 <= a < |os|
          ensures Queried(qkeys, i + 1, k, os[a])
        {
          var prev := if key in origins then origins[key] else [];
          if a < |prev| {
            assert key in elements;
            assert os[a] == prev[a];
            assert Queried(qkeys, i, k, origins[key][a]);
          } else {
            assert os[a] == qkeys[i].1;
          }
        }
      } else {
        assert o[k] == origins[k];
      }
    }
  }

  lemma CoveredKeep(qkeys: seq<(SsKey, int)>, i: nat, elements: map<SsKey, seq<Interval>>)
    requires i < |qkeys| && AllCovered(qkeys, i, elements)
    requires Covers(if qkeys[i].0 in elements then elements[qkeys[i].0] else [], qkeys[i].1)
    ensures AllCovered(qkeys, i + 1, elements)
  {
  }

  lemma CoveredPut(qkeys: seq<(SsKey, int)>, i: nat, elements: map<SsKey, seq<Interval>>, ivs: seq<Interval>)
    requires i < |qkeys| && AllCovered(qkeys, i, elements)
    requires Covers(ivs, qkeys[i].1)
    requires qkeys[i].0 in elements ==> forall x :: Covers(elements[qkeys[i].0], x) ==> Covers(ivs, x)
    ensures AllCovered(qkeys, i + 1, elements[qkeys[i].0 := ivs])
  {
    var e := elements[qkeys[i].0 := ivs];
    forall j | 0 <= j < i + 1 && j < |qkeys|
      ensures qkeys[j].0 in e && Covers(e[qkeys[j].0], qkeys[j].1)
    {
      if qkeys[j].0 != qkeys[i].0 {
        assert e[qkeys[j].0] == elements[qkeys[j].0];
      }
    }
  }

  /** The dictionary's keys are exactly the queried keys. */
  lemma KeysQueried(qkeys: seq<(SsKey, int)>, order: seq<SsKey>, elements: map<SsKey, seq<Interval>>, origins: map<SsKey, seq<int>>)
    requires Listed(order, elements) && FromQueries(qkeys, |qkeys|, elements, origins)
    requires AllCovered(qkeys, |qkeys|, elements)
    ensures forall k :: k in order <==> KeySeen(qkeys, |qkeys|, k)
  {
    forall k | k in order
      ensures KeySeen(qkeys, |qkeys|, k)
    {
      assert Queried(qkeys, |qkeys|, k, origins[k][0]);
      var j :| 0 <= j < |qkeys| && qkeys[j] == (k, origins[k][0]);
      assert qkeys[j].0 == k;
    }
    forall k | KeySeen(qkeys, |qkeys|, k)
      ensures k in order
    {
      var j :| 0 <= j < |qkeys| && qkeys[j].0 == k;
      assert qkeys[j].0 in elements;
    }
  }

  /** The intervals kept for one key are pairwise apart whenever every
      residue they were grown from carries that key's CA: the skip in
      `in_intervals` is what keeps a run from being recorded twice. */
  lemma ElementsApart(s: seq<int>, origins: seq<int>, ivs: seq<Interval>)
    requires Grown(s, origins, ivs) && Fresh(origins, ivs)
    requires forall a :: 0 <= a < |origins| ==> origins[a] in s
    ensures forall a, b :: 0 <= a < b < |ivs| ==> ivs[a].hi + 1 < ivs[b].lo || ivs[b].hi + 1 < ivs[a].lo
  {
    forall a, b | 0 <= a < b < |ivs|
      ensures ivs[a].hi + 1 < ivs[b].lo || ivs[b].hi + 1 < ivs[a].lo
    {
      RunsApart(s, origins[a], ivs[a], origins[b], ivs[b]);
    }
  }

  /** `'/%s/%s/%s/%d-%d' % (model, segi, chain, resv_min, resv_max)`,
      followed by `/CA` when only CA atoms are wanted. */
  function IntervalText(key: SsKey, iv: Interval, caonly: bool): string {
    "/" + key.model + "/" + key.segi + "/" + key.chain + "/" + RangeBody(iv) + (if caonly then "/CA" else "")
  }

  function RangeBody(iv: Interval): string {
    IntToString(iv.lo) + "-" + IntToString(iv.hi)
  }

  /** Unlike `collapse_resi`, a one-residue run is written `v-v`; for
      non-negative residue numbers it reads back as the same interval. */
  lemma RangeBodyReadsBack(iv: Interval)
    requires 0 <= iv.lo && 0 <= iv.hi
    ensures CollapseResi.ParseRange(RangeBody(iv)) == Some(CollapseResi.Range(iv.lo, iv.hi))
  {
    CollapseResi.NumberReadsBack(iv.lo);
    CollapseResi.NumberReadsBack(iv.hi);
    CollapseResi.PairReadsBack(IntToString(iv.lo), IntToString(iv.hi), iv.lo, iv.hi);
  }

  /** The texts of one key's intervals, in list order. */
  function KeyTexts(key: SsKey, ivs: seq<Interval>, caonly: bool): (ts: seq<string>)
    ensures |ts| == |ivs|
  {
    if |ivs| == 0 then [] else KeyTexts(key, ivs[..|ivs| - 1], caonly) + [IntervalText(key, ivs[|ivs| - 1], caonly)]
  }

  /** `sele_list`: the keys in dictionary order, each with its intervals. */
  function Texts(order: seq<SsKey>, elements: map<SsKey, seq<Interval>>, caonly: bool): seq<string>
    requires forall k :: k in order ==> k in elements
  {
    if |order| == 0 then []
    else Texts(order[..|order| - 1], elements, caonly) + KeyTexts(order[|order| - 1], elements[order[|order| - 1]], caonly)
  }

  /** Number of intervals recorded for the listed keys. */
  function Total(order: seq<SsKey>, elements: map<SsKey, seq<Interval>>): nat
    requires forall k :: k in order ==> k in elements
  {
    if |order| == 0 then 0 else Total(order[..|order| - 1], elements) + |elements[order[|order| - 1]]|
  }

  /** One macro per recorded interval. */
  lemma {:induction false} TextsCount(order: seq<SsKey>, elements: map<SsKey, seq<Interval>>, caonly: bool)
    requires forall k :: k in order ==> k in elements
    ensures |Texts(order, elements, caonly)| == Total(order, elements)
    decreases |order|
  {
    if |order| > 0 {
      TextsCount(order[..|order| - 1], elements, caonly);
    }
  }

  /** The outer loop that builds `sele_list`, key by key. */
  method SelectionList(order: seq<SsKey>, elements: map<SsKey, seq<Interval>>, caonly: bool) returns (list: seq<string>)
    requires forall k :: k in order ==> k in elements
    ensures list == Texts(order, elements, caonly)
  {
    list := [];
    for i := 0 to |order|
      invariant list == Texts(order[..i], elements, caonly)
    {
      list := AppendKeyTexts(list, order[i], elements[order[i]], caonly);
      assert order[..i + 1][..i] == order[..i];
    }
    assert order[..|order|] == order;
  }

  /** The inner loop: one macro per interval of the key. */
  method AppendKeyTexts(list: seq<string>, key: SsKey, ivs: seq<Interval>, caonly: bool) returns (list': seq<string>)
    ensures list' == list + KeyTexts(key, ivs, caonly)
  {
    list' := list;
    for j := 0 to |ivs|
      invariant list' == list + KeyTexts(key, ivs[..j], caonly)
    {
      assert ivs[..j + 1][..j] == ivs[..j];
      var line := IntervalText(key, ivs[j], caonly);
      assert KeyTexts(key, ivs[..j + 1], caonly) == KeyTexts(key, ivs[..j], caonly) + [line];
      list' := list' + [line];
    }
    assert ivs[..|ivs|] == ivs;
  }

  /** When every queried residue carries its key's CA, the intervals
      kept for each key are pairwise apart: no run is recorded twice. */
  lemma AllApart(qkeys: seq<(SsKey, int)>, ca: SsKey -> seq<int>,
                 elements: map<SsKey, seq<Interval>>, origins: map<SsKey, seq<int>>)
    requires RunsKept(ca, elements, origins) && FromQueries(qkeys, |qkeys|, elements, origins)
    requires forall j :: 0 <= j < |qkeys| ==> qkeys[j].1 in ca(qkeys[j].0)
    ensures forall k :: k in elements ==> forall a, b :: 0 <= a < b < |elements[k]| ==>
      elements[k][a].hi + 1 < elements[k][b].lo || elements[k][b].hi + 1 < elements[k][a].lo
  {
    forall k | k in elements
      ensures forall a, b :: 0 <= a < b < |elements[k]| ==>
        elements[k][a].hi + 1 < elements[k][b].lo || elements[k][b].hi + 1 < elements[k][a].lo
    {
      forall a | 0 <= a < |origins[k]|
        ensures origins[k][a] in ca(k)
      {
        assert Queried(qkeys, |qkeys|, k, origins[k][a]);
        var j :| 0 <= j < |qkeys| && qkeys[j] == (k, origins[k][a]);
        assert qkeys[j].1 in ca(qkeys[j].0);
      }
      ElementsApart(ca(k), origins[k], elements[k]);
    }
  }

  /** `select_sspick`: the macros joined by blanks. Every queried residue
      is covered by an interval of its key, the keys are exactly the
      queried ones, and with consistent host answers the intervals of a
      key are pairwise apart. */
  method SsPickSelection(qkeys: seq<(SsKey, int)>, ca: SsKey -> seq<int>, caonly: bool)
    returns (sele: string, order: seq<SsKey>, elements: map<SsKey, seq<Interval>>, ghost origins: map<SsKey, seq<int>>)
    ensures Listed(order, elements) && SeenOrder(qkeys, order)
    ensures RunsKept(ca, elements, origins) && FromQueries(qkeys, |qkeys|, elements, origins)
    ensures AllCovered(qkeys, |qkeys|, elements)
    ensures forall k :: k in order <==> KeySeen(qkeys, |qkeys|, k)
    ensures (forall j :: 0 <= j < |qkeys| ==> qkeys[j].1 in ca(qkeys[j].0)) ==>
      forall k :: k in elements ==> forall a, b :: 0 <= a < b < |elements[k]| ==>
        elements[k][a].hi + 1 < elements[k][b].lo || elements[k][b].hi + 1 < elements[k][a].lo
    ensures sele == Join(" ", Texts(order, elements, caonly))
  {
    order, elements, origins := Elements(qkeys, ca);
    if forall j :: 0 <= j < |qkeys| ==> qkeys[j].1 in ca(qkeys[j].0) {
      AllApart(qkeys, ca, elements, origins);
    }
    var list := SelectionList(order, elements, caonly);
    sele := Join(" ", list);
  }
}
