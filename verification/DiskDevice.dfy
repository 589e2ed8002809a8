/** The one total reported for a physical device, merged from its mount points (`monitoring/unit/disk.go`). */
module DiskDevice {
  import opened Common

  /** One mount point; `quota` says that its numbers are the quota of the subvolume. */
  datatype Sample = Sample(total: Uint64, used: Uint64, subvol: string, quota: bool)

  /** The merged mounts of one subvolume; `order` is the arrival of the sample it came from. */
  datatype Usage = Usage(total: Uint64, used: Uint64, quota: bool, order: nat)

  function Merge(current: Usage, next: Usage): Usage {
    if current.quota && !next.quota then current
    else if next.quota && !current.quota then next
    else if current.quota then (if next.total < current.total then next else current)
    else if next.total > current.total then next else current
  }

  // ---------------------------------------------------------------- the closed form

  /** A subvolume with a quota among its samples. */
  ghost predicate Limited(samples: seq<Sample>, v: string) {
    exists x :: x in samples && x.subvol == v && x.quota
  }

  /** The sample that stands for its subvolume: its smallest quota, or without any quota its largest total. */
  ghost predicate Represents(samples: seq<Sample>, x: Sample) {
    && x in samples
    && (x.quota <==> Limited(samples, x.subvol))
    && (forall y :: y in samples && y.subvol == x.subvol && y.quota == x.quota ==>
          if x.quota then x.total <= y.total else y.total <= x.total)
  }

  ghost predicate HasUnlimited(samples: seq<Sample>) {
    exists y :: y in samples && !Limited(samples, y.subvol)
  }

  /**
   * The sample that stands for the device: the largest of the unlimited subvolumes, or the largest of the
   * subvolumes' smallest quotas when every subvolume is limited.
   */
  ghost predicate RepresentsDevice(samples: seq<Sample>, x: Sample) {
    && Represents(samples, x)
    && (HasUnlimited(samples) ==> !x.quota)
    && (forall y :: Represents(samples, y) && (HasUnlimited(samples) ==> !y.quota) ==> y.total <= x.total)
  }

  ghost predicate IsFirstOfDevice(samples: seq<Sample>, i: int) {
    && 0 <= i < |samples| && RepresentsDevice(samples, samples[i])
    && forall j :: 0 <= j < i ==> !RepresentsDevice(samples, samples[j])
  }

  ghost predicate SameSamples(a: seq<Sample>, b: seq<Sample>) {
    forall x :: x in a <==> x in b
  }

  lemma RepresentsAlike(a: seq<Sample>, b: seq<Sample>, x: Sample)
    requires SameSamples(a, b) && Represents(a, x)
    ensures Represents(b, x)
    ensures HasUnlimited(a) <==> HasUnlimited(b)
  {
    assert forall v :: Limited(a, v) <==> Limited(b, v);
  }

  /** The total depends on the set of samples only, not on their order or on repeated mounts. */
  lemma TotalIgnoresOrder(a: seq<Sample>, b: seq<Sample>, x: Sample, y: Sample)
    requires SameSamples(a, b) && RepresentsDevice(a, x) && RepresentsDevice(b, y)
    ensures x.total == y.total
  {
    RepresentsAlike(a, b, x);
    RepresentsAlike(b, a, y);
  }

  // ---------------------------------------------------------------- merging

  function UsageOf(x: Sample, order: nat): Usage {
    Usage(x.total, x.used, x.quota, order)
  }

  function AddTo(subvols: map<string, Usage>, x: Sample, order: nat): map<string, Usage> {
    subvols[x.subvol := if x.subvol in subvols then Merge(subvols[x.subvol], UsageOf(x, order)) else UsageOf(x, order)]
  }

  /** The device after its samples have arrived, in this order. */
  function Device(samples: seq<Sample>): map<string, Usage> {
    if samples == [] then map[] else AddTo(Device(samples[..|samples| - 1]), samples[|samples| - 1], |samples|)
  }

  /** A usage is one of the samples, the first of the best of its subvolume. */
  ghost predicate FirstBest(samples: seq<Sample>, v: string, u: Usage) {
    && 0 < u.order <= |samples|
    && samples[u.order - 1] == Sample(u.total, u.used, v, u.quota)
    && Represents(samples, samples[u.order - 1])
    && (forall j :: 0 <= j < u.order - 1 && samples[j].subvol == v && samples[j].quota == u.quota ==>
          samples[j].total != u.total)
  }

  lemma {:induction false} DeviceIsFirstBest(samples: seq<Sample>)
    ensures forall v :: v in Device(samples) <==> exists x :: x in samples && x.subvol == v
    ensures forall v :: v in Device(samples) ==> FirstBest(samples, v, Device(samples)[v])
  {
    if samples != [] {
      var front, x := samples[..|samples| - 1], samples[|samples| - 1];
      DeviceIsFirstBest(front);
      assert samples == front + [x];
      forall v | v in Device(samples) ensures FirstBest(samples, v, Device(samples)[v]) {
        if v != x.subvol {
          OtherSubvolume(front, x, v, Device(front)[v]);
        } else if v in Device(front) {
          MergeIsFirstBest(front, x, Device(front)[v]);
        } else {
          NewSubvolume(front, x);
        }
      }
    }
  }

  lemma OtherSubvolume(front: seq<Sample>, x: Sample, v: string, u: Usage)
    requires FirstBest(front, v, u) && x.subvol != v
    ensures FirstBest(front + [x], v, u)
  {
    assert Limited(front + [x], v) <==> Limited(front, v);
  }

  lemma NewSubvolume(front: seq<Sample>, x: Sample)
    requires forall y :: y in front ==> y.subvol != x.subvol
    ensures FirstBest(front + [x], x.subvol, UsageOf(x, |front| + 1))
  {
    var all := front + [x];
    assert all[|front|] == x;
    assert Limited(all, x.subvol) <==> x.quota;
  }

  lemma MergeIsFirstBest(front: seq<Sample>, x: Sample, u: Usage)
    requires FirstBest(front, x.subvol, u)
    ensures FirstBest(front + [x], x.subvol, Merge(u, UsageOf(x, |front| + 1)))
  {
    var all := front + [x];
    assert all[|front|] == x && all[u.order - 1] == front[u.order - 1];
    assert Limited(all, x.subvol) <==> Limited(front, x.subvol) || x.quota;
  }

  // ---------------------------------------------------------------- choosing

  ghost predicate AnyUnlimited(subvols: map<string, Usage>) {
    exists v :: v in subvols && !subvols[v].quota
  }

  predicate Better(a: Usage, b: Usage) {
    a.total > b.total || (a.total == b.total && a.order < b.order)
  }

  /** The subvolume chosen for the device, whatever order the map is walked in. */
  ghost predicate IsBest(subvols: map<string, Usage>, v: string) {
    && v in subvols
    && (AnyUnlimited(subvols) ==> !subvols[v].quota)
    && (forall w :: w in subvols && w != v && (AnyUnlimited(subvols) ==> !subvols[w].quota) ==>
          Better(subvols[v], subvols[w]))
  }

  /** Ties go to the earlier arrival, so the choice, and with it the used value, is the same in every map order. */
  lemma BestIsUnique(subvols: map<string, Usage>, v: string, w: string)
    requires IsBest(subvols, v) && IsBest(subvols, w)
    ensures v == w
  {
  }

  /** Whatever sample represents a subvolume has the total and the kind of its merged usage. */
  lemma RepresentativesAgree(samples: seq<Sample>, y: Sample)
    requires Represents(samples, y)
    ensures y.subvol in Device(samples)
    ensures Device(samples)[y.subvol].total == y.total && Device(samples)[y.subvol].quota == y.quota
  {
    DeviceIsFirstBest(samples);
    assert FirstBest(samples, y.subvol, Device(samples)[y.subvol]);
  }

  lemma UsageRepresents(samples: seq<Sample>, v: string)
    requires v in Device(samples)
    ensures var u := Device(samples)[v];
            && 0 < u.order <= |samples|
            && samples[u.order - 1] == Sample(u.total, u.used, v, u.quota)
            && Represents(samples, samples[u.order - 1])
  {
    DeviceIsFirstBest(samples);
    assert FirstBest(samples, v, Device(samples)[v]);
  }

  /** The chosen sample is the closed form; total and used come from this one sample. */
  lemma BestRepresentsDevice(samples: seq<Sample>, v: string)
    requires IsBest(Device(samples), v)
    ensures var u := Device(samples)[v];
            && 0 < u.order <= |samples|
            && samples[u.order - 1] == Sample(u.total, u.used, v, u.quota)
            && RepresentsDevice(samples, samples[u.order - 1])
  {
    hide Device, Represents, HasUnlimited, AnyUnlimited;
    UsageRepresents(samples, v);
    UnlimitedAgree(samples);
    forall y | Represents(samples, y) && (HasUnlimited(samples) ==> !y.quota)
      ensures y.total <= Device(samples)[v].total
    {
      RepresentativesAgree(samples, y);
    }
  }

  /** Of the samples that can stand for the device, the chosen one arrived first. */
  lemma BestArrivedFirst(samples: seq<Sample>, v: string, i: nat)
    requires IsBest(Device(samples), v)
    requires i < |samples| && RepresentsDevice(samples, samples[i])
    ensures Device(samples)[v].order - 1 <= i
  {
    hide Device, Represents, HasUnlimited, AnyUnlimited;
    BestRepresentsDevice(samples, v);
    UnlimitedAgree(samples);
    DeviceIsFirstBest(samples);
    var w := samples[i].subvol;
    RepresentativesAgree(samples, samples[i]);
    assert FirstBest(samples, w, Device(samples)[w]) && FirstBest(samples, v, Device(samples)[v]);
    assert w != v ==> Better(Device(samples)[v], Device(samples)[w]);
  }

  lemma UnlimitedAgree(samples: seq<Sample>)
    ensures HasUnlimited(samples) <==> AnyUnlimited(Device(samples))
  {
    DeviceIsFirstBest(samples);
    var d := Device(samples);
    if HasUnlimited(samples) {
      var y :| y in samples && !Limited(samples, y.subvol);
      assert y.subvol in d && FirstBest(samples, y.subvol, d[y.subvol]);
    }
    if AnyUnlimited(d) {
      var v :| v in d && !d[v].quota;
      assert FirstBest(samples, v, d[v]);
      assert !Limited(samples, samples[d[v].order - 1].subvol);
    }
  }

  /** The same samples in any order give the same total. */
  lemma DeviceTotalIgnoresOrder(a: seq<Sample>, b: seq<Sample>, v: string, w: string)
    requires SameSamples(a, b) && IsBest(Device(a), v) && IsBest(Device(b), w)
    ensures Device(a)[v].total == Device(b)[w].total
  {
    hide Device, Represents, RepresentsDevice, SameSamples, AnyUnlimited;
    BestRepresentsDevice(a, v);
    BestRepresentsDevice(b, w);
    TotalIgnoresOrder(a, b, a[Device(a)[v].order - 1], b[Device(b)[w].order - 1]);
  }

  lemma OrdersDiffer(samples: seq<Sample>, v: string, w: string)
    requires v in Device(samples) && w in Device(samples) && v != w
    ensures Device(samples)[v].order != Device(samples)[w].order
  {
    DeviceIsFirstBest(samples);
  }

  // ---------------------------------------------------------------- the code

  class PhysicalDevice {
    var subvols: map<string, Usage>
    var order: nat
    ghost var samples: seq<Sample>

    ghost predicate Valid()
      reads this
    {
      subvols == Device(samples) && order == |samples|
    }

    constructor ()
      ensures Valid() && samples == []
    {
      subvols, order, samples := map[], 0, [];
    }

    method Add(sample: Sample)
      requires Valid()
      modifies this
      ensures Valid() && samples == old(samples) + [sample]
    {
      samples := samples + [sample];
      assert samples[..|samples| - 1] == old(samples);
      order := order + 1;
      var incoming := Usage(sample.total, sample.used, sample.quota, order);
      if sample.subvol !in subvols {
        subvols := subvols[sample.subvol := incoming];
        return;
      }
      subvols := subvols[sample.subvol := Merge(subvols[sample.subvol], incoming)];
    }

    /** Zero for a device without samples; otherwise both numbers of the first sample that can stand for it. */
    method Totals() returns (total: Uint64, used: Uint64)
      requires Valid()
      ensures samples == [] ==> total == 0 && used == 0
      ensures samples != [] ==>
        exists i :: IsFirstOfDevice(samples, i) && total == samples[i].total && used == samples[i].used
      ensures samples != [] ==> exists v :: IsBest(subvols, v) && total == subvols[v].total && used == subvols[v].used
    {
      hide Device, RepresentsDevice, FirstBest;
      var unlimited := false;
      var todo := subvols.Keys;
      while todo != {} && !unlimited
        invariant todo <= subvols.Keys
        invariant unlimited ==> AnyUnlimited(subvols)
        invariant forall v :: v in subvols && v !in todo && !subvols[v].quota ==> unlimited
      {
        var v :| v in todo;
        todo := todo - {v};
        if !subvols[v].quota {
          unlimited := true;
        }
      }
      var best, found := Usage(0, 0, false, 0), false;
      ghost var chosen := "";
      todo := subvols.Keys;
      while todo != {}
        invariant todo <= subvols.Keys
        invariant found ==> chosen in subvols && chosen !in todo && best == subvols[chosen]
        invariant found ==> !(unlimited && best.quota)
        invariant found ==> forall w ::
                      w in subvols && w !in todo && w != chosen && !(unlimited && subvols[w].quota) ==>
                        Better(best, subvols[w])
        invariant !found ==> best == Usage(0, 0, false, 0)
        invariant !found ==> forall w :: w in subvols && w !in todo ==> unlimited && subvols[w].quota
      {
        var v :| v in todo;
        todo := todo - {v};
        var sample := subvols[v];
        if !(unlimited && sample.quota) && (!found || Better(sample, best)) {
          best, found, chosen := sample, true, v;
        } else if found && !(unlimited && sample.quota) {
          OrdersDiffer(samples, chosen, v);
        }
      }
      SamplesAndSubvols(samples);
      if samples != [] {
        assert found;
        assert IsBest(subvols, chosen);
        BestRepresentsDevice(samples, chosen);
        forall i | 0 <= i < |samples| && RepresentsDevice(samples, samples[i])
          ensures best.order - 1 <= i
        {
          BestArrivedFirst(samples, chosen, i);
        }
        assert IsFirstOfDevice(samples, best.order - 1);
      }
      return best.total, best.used;
    }
  }

  lemma SamplesAndSubvols(samples: seq<Sample>)
    ensures samples == [] <==> Device(samples) == map[]
    ensures samples != [] ==> exists v :: v in Device(samples)
  {
    if samples != [] {
      assert samples[|samples| - 1].subvol in Device(samples);
    }
  }
}
