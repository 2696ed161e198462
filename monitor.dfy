/**
 * The memory sampler (`MemoryMonitoringThread.run`) and the peak it keeps in
 * the global `max_child_memory_use`. Each tick reads a `ps aux` table; the
 * ticks are given as the finite sequence of tables the thread reads before the
 * process exits.
 */
module Monitor {
  import opened Text
  import opened Wrappers
  import PsMemory

  /** Python's `max(a, b)`: `a` unless `b` is strictly larger. */
  function Max(a: real, b: real): (m: real)
    ensures m >= a && m >= b && (m == a || m == b)
  {
    if b > a then b else a
  }

  /** The peak after the given samples, folded from the initial 0 in order. */
  function PeakOf(samples: seq<real>): (p: real)
    ensures p >= 0.0
    ensures forall k :: 0 <= k < |samples| ==> samples[k] <= p
    ensures p == 0.0 || exists k :: 0 <= k < |samples| && samples[k] == p
  {
    if samples == [] then 0.0 else Max(PeakOf(samples[..|samples| - 1]), samples[|samples| - 1])
  }

  /** More samples never lower the peak. */
  lemma {:induction false} PeakMonotone(s: seq<real>, t: seq<real>)
    ensures PeakOf(s) <= PeakOf(s + t)
    decreases |t|
  {
    if t == [] {
      assert s + t == s;
    } else {
      assert (s + t)[..|s + t| - 1] == s + t[..|t| - 1];
      PeakMonotone(s, t[..|t| - 1]);
    }
  }

  /** The peak is the least bound that is at least 0 and every sample. */
  lemma PeakIsLeastBound(samples: seq<real>, bound: real)
    requires bound >= 0.0
    requires forall k :: 0 <= k < |samples| ==> samples[k] <= bound
    ensures PeakOf(samples) <= bound
  {
  }

  /** The samples one sampler thread records, one per tick, until a table that
      cannot be read raises and ends the thread. */
  function SamplesTaken(tables: seq<String>): (samples: seq<real>)
    ensures |samples| <= |tables|
  {
    if tables == [] then []
    else
      match PsMemory.UsageMb(tables[0])
      case Err(_) => []
      case Ok(mb) => [mb] + SamplesTaken(tables[1..])
  }

  /** Sample `k` is the total of table `k`, every table before the last sample
      was readable, and sampling stops only at an unreadable table or at the end. */
  lemma {:induction false} SamplesTakenAre(tables: seq<String>)
    ensures |SamplesTaken(tables)| <= |tables|
    ensures forall k :: 0 <= k < |SamplesTaken(tables)| ==>
      PsMemory.UsageMb(tables[k]) == Ok(SamplesTaken(tables)[k])
    ensures |SamplesTaken(tables)| < |tables| ==>
      PsMemory.UsageMb(tables[|SamplesTaken(tables)|]).Err?
    decreases |tables|
  {
    if tables != [] && PsMemory.UsageMb(tables[0]).Ok? {
      SamplesTakenAre(tables[1..]);
      assert forall k :: 1 <= k < |tables| ==> tables[k] == tables[1..][k - 1];
    }
  }

  /** The reported peak is 0 or the total of a table the sampler actually
      read, and it is at least every total it read. */
  lemma PeakIsSampledTotal(tables: seq<String>)
    ensures var p := PeakOf(SamplesTaken(tables));
      && (p == 0.0 || exists k :: 0 <= k < |SamplesTaken(tables)| && PsMemory.UsageMb(tables[k]) == Ok(p))
      && forall k :: 0 <= k < |SamplesTaken(tables)| && k < |tables| && PsMemory.UsageMb(tables[k]).Ok? ==>
           PsMemory.UsageMb(tables[k]).value <= p
  {
    SamplesTakenAre(tables);
  }

  lemma SamplesTakenStep(tables: seq<String>, i: nat, taken: seq<real>, mb: real)
    requires i < |tables|
    requires PsMemory.UsageMb(tables[i]) == Ok(mb)
    requires SamplesTaken(tables) == taken + SamplesTaken(tables[i..])
    ensures SamplesTaken(tables) == (taken + [mb]) + SamplesTaken(tables[i + 1..])
  {
    var rest := tables[i..];
    assert rest[0] == tables[i] && rest[1..] == tables[i + 1..];
    assert SamplesTaken(rest) == [mb] + SamplesTaken(rest[1..]);
    assert taken + ([mb] + SamplesTaken(rest[1..])) == (taken + [mb]) + SamplesTaken(rest[1..]);
  }

  lemma SamplesTakenStop(tables: seq<String>, i: nat)
    requires i <= |tables|
    requires i == |tables| || PsMemory.UsageMb(tables[i]).Err?
    ensures SamplesTaken(tables[i..]) == []
  {
    if i < |tables| {
      assert tables[i..][0] == tables[i];
    }
  }

  /** The holder of the peak memory use, in megabytes. */
  class PeakMemory {
    /** `max_child_memory_use` */
    var peak: real
    /** Every sample recorded so far, in order. */
    ghost var samples: seq<real>

    ghost predicate Valid()
      reads this
    {
      peak == PeakOf(samples)
    }

    constructor ()
      ensures Valid() && samples == [] && peak == 0.0
    {
      peak := 0.0;
      samples := [];
    }

    /** One sampling step: the peak becomes `max(peak, sample)`. */
    method Update(sample: real)
      requires Valid()
      modifies this
      ensures Valid()
      ensures samples == old(samples) + [sample]
      ensures peak == Max(old(peak), sample)
      ensures old(peak) <= peak && sample <= peak
    {
      assert (samples + [sample])[..|samples|] == samples;
      peak := Max(peak, sample);
      samples := samples + [sample];
    }

    /** The sampler thread's loop over the tables of its ticks: each readable
        table's total updates the peak; the first unreadable one raises, which
        ends the thread. */
    method Run(tables: seq<String>)
      requires Valid()
      modifies this
      ensures Valid()
      ensures samples == old(samples) + SamplesTaken(tables)
      ensures old(peak) <= peak
    {
      var i := 0;
      ghost var taken: seq<real> := [];
      while i < |tables|
        invariant i <= |tables|
        invariant Valid()
        invariant samples == old(samples) + taken
        invariant SamplesTaken(tables) == taken + SamplesTaken(tables[i..])
        invariant old(peak) <= peak
      {
        var usage := PsMemory.AllPsMemoryUsage(tables[i]);
        if usage.Err? {
          SamplesTakenStop(tables, i);
          assert taken + [] == taken;
          return;
        }
        SamplesTakenStep(tables, i, taken, usage.value);
        Update(usage.value);
        taken := taken + [usage.value];
        i := i + 1;
      }
      SamplesTakenStop(tables, i);
      assert taken + [] == taken;
    }
  }
}
