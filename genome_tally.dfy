/**
 * The summary at the end of filter_hits (analyze.py): a hit count per
 * genome over the records that survived filtering, and each genome's
 * percentage of all surviving hits.
 */
module GenomeTally {
  import opened Subsequences
  import opened MapSums
  import opened Mappings
  import opened HitFilter

  function HasTarget(g: string): Record -> bool
  {
    (r: Record) => r.target == g
  }

  /** How many records of a list name target `g`. */
  function Occurrences(rs: seq<Record>, g: string): nat
  {
    |Keep(rs, HasTarget(g))|
  }

  function OccurrencesOf(g: string): seq<Record> -> nat
  {
    (rs: seq<Record>) => Occurrences(rs, g)
  }

  /** How many records of an index name target `g`. */
  ghost function CountTarget(index: Index, g: string): nat
  {
    SumBy(index, OccurrencesOf(g))
  }

  function Count(n: nat): nat
  {
    n
  }

  /** The sum of the counts of a tally, Python's sum(bactdict.values()). */
  ghost function TotalHits(counts: map<string, nat>): nat
  {
    SumBy(counts, Count)
  }

  /** A genome's share of all hits, in per cent; 0 when there are no hits. */
  function Percentage(count: nat, total: nat): real
  {
    if total == 0 then 0.0 else 100.0 * (count as real) / (total as real)
  }

  lemma OccurrencesSnoc(rs: seq<Record>, j: nat, g: string)
    requires j < |rs|
    ensures Occurrences(rs[..j + 1], g) == Occurrences(rs[..j], g) + (if rs[j].target == g then 1 else 0)
  {
    assert rs[..j + 1][..j] == rs[..j];
  }

  /** A tally with a zero for every genome. */
  method ZeroCounts(genomes: set<string>) returns (counts: map<string, nat>)
    ensures counts.Keys == genomes
    ensures forall g :: g in counts ==> counts[g] == 0
    ensures TotalHits(counts) == 0
  {
    counts := map[];
    var rest := genomes;
    while rest != {}
      invariant rest <= genomes
      invariant counts.Keys == genomes - rest
      invariant forall g :: g in counts ==> counts[g] == 0
      invariant TotalHits(counts) == 0
      decreases rest
    {
      var genome :| genome in rest;
      SumByInsert(counts, Count, genome, 0);
      counts := counts[genome := 0];
      rest := rest - {genome};
    }
  }

  /** One more for the target of every record of one fragment. */
  method CountHits(counts: map<string, nat>, hits: seq<Record>) returns (counts': map<string, nat>)
    requires forall r :: r in hits ==> r.target in counts
    ensures counts'.Keys == counts.Keys
    ensures forall g :: g in counts ==> counts'[g] == counts[g] + Occurrences(hits, g)
    ensures TotalHits(counts') == TotalHits(counts) + |hits|
  {
    counts' := counts;
    for j := 0 to |hits|
      invariant counts'.Keys == counts.Keys
      invariant forall g :: g in counts ==> counts'[g] == counts[g] + Occurrences(hits[..j], g)
      invariant TotalHits(counts') == TotalHits(counts) + j
    {
      OneMoreHit(counts, counts', hits, j);
      OneMoreInTotal(counts', hits[j].target);
      counts' := counts'[hits[j].target := counts'[hits[j].target] + 1];
    }
    assert TotalHits(counts') == TotalHits(counts) + |hits|;
    assert hits[..|hits|] == hits;
  }

  /** Counting the next record of a list adds one for its target only. */
  lemma OneMoreHit(counts: map<string, nat>, current: map<string, nat>, hits: seq<Record>, j: nat)
    requires j < |hits| && hits[j].target in current
    requires current.Keys == counts.Keys
    requires forall g :: g in counts ==> current[g] == counts[g] + Occurrences(hits[..j], g)
    ensures var target := hits[j].target;
      forall g :: g in counts ==>
        current[target := current[target] + 1][g] == counts[g] + Occurrences(hits[..j + 1], g)
  {
    var target := hits[j].target;
    forall g | g in counts
      ensures current[target := current[target] + 1][g] == counts[g] + Occurrences(hits[..j + 1], g)
    {
      OccurrencesSnoc(hits, j, g);
    }
  }

  /** Adding one to a count adds one to the total. */
  lemma OneMoreInTotal(current: map<string, nat>, target: string)
    requires target in current
    ensures TotalHits(current[target := current[target] + 1]) == TotalHits(current) + 1
  {
    SumByUpdate(current, Count, target, current[target] + 1);
  }

  /** The counts of an index grow by those of a fresh fragment. */
  lemma TallyFragment(done: Index, f: string, hits: seq<Record>, before: map<string, nat>, after: map<string, nat>)
    requires f !in done
    requires after.Keys == before.Keys
    requires forall g :: g in before ==> before[g] == CountTarget(done, g)
    requires forall g :: g in before ==> after[g] == before[g] + Occurrences(hits, g)
    requires TotalHits(before) == TotalRecords(done)
    requires TotalHits(after) == TotalHits(before) + |hits|
    ensures forall g :: g in after ==> after[g] == CountTarget(done[f := hits], g)
    ensures TotalHits(after) == TotalRecords(done[f := hits])
  {
    forall g | g in after
      ensures after[g] == CountTarget(done[f := hits], g)
    {
      SumByInsert(done, OccurrencesOf(g), f, hits);
    }
    SumByInsert(done, Size, f, hits);
  }

  /** bactdict: a zero for every genome, then one more for every surviving
      record's target. */
  method Tally(filtered: Index, genomes: set<string>) returns (counts: map<string, nat>)
    requires AllTargets(filtered) <= genomes
    ensures counts.Keys == genomes
    ensures forall g :: g in genomes ==> counts[g] == CountTarget(filtered, g)
    ensures TotalHits(counts) == TotalRecords(filtered)
  {
    counts := ZeroCounts(genomes);
    var todo := filtered.Keys;
    ghost var done: Index := map[];
    while todo != {}
      invariant todo <= filtered.Keys
      invariant done.Keys == filtered.Keys - todo
      invariant forall f :: f in done ==> done[f] == filtered[f]
      invariant counts.Keys == genomes
      invariant forall g :: g in genomes ==> counts[g] == CountTarget(done, g)
      invariant TotalHits(counts) == TotalRecords(done)
      decreases todo
    {
      var fragment :| fragment in todo;
      var hits := filtered[fragment];
      TargetsWithinAll(filtered, fragment);
      ghost var before := counts;
      counts := CountHits(counts, hits);
      TallyFragment(done, fragment, hits, before, counts);
      done := done[fragment := hits];
      todo := todo - {fragment};
    }
    assert done == filtered by {
      assert done.Keys == filtered.Keys;
    }
  }

  /** sum(bactdict.values()). */
  method SumCounts(counts: map<string, nat>) returns (total: nat)
    ensures total == TotalHits(counts)
  {
    total := 0;
    var todo := counts.Keys;
    ghost var done: map<string, nat> := map[];
    while todo != {}
      invariant todo <= counts.Keys
      invariant done == map g | g in counts && g !in todo :: counts[g]
      invariant total == TotalHits(done)
      decreases todo
    {
      var genome :| genome in todo;
      SumByInsert(done, Count, genome, counts[genome]);
      total := total + counts[genome];
      done := done[genome := counts[genome]];
      todo := todo - {genome};
    }
    assert done == counts;
  }

  /** The percentage column of the report, one entry per genome. */
  method Percentages(counts: map<string, nat>) returns (percentages: map<string, real>)
    ensures percentages.Keys == counts.Keys
    ensures forall g :: g in counts ==> percentages[g] == Percentage(counts[g], TotalHits(counts))
  {
    percentages := map[];
    var todo := counts.Keys;
    while todo != {}
      invariant todo <= counts.Keys
      invariant percentages.Keys == counts.Keys - todo
      invariant forall g :: g in percentages ==> percentages[g] == Percentage(counts[g], TotalHits(counts))
      decreases todo
    {
      var genome :| genome in todo;
      var totalHits := SumCounts(counts);
      percentages := percentages[genome := Percentage(counts[genome], totalHits)];
      todo := todo - {genome};
    }
  }

  /** A fragment's list has a record for `g` exactly when it counts one. */
  lemma OccurrencesPositive(rs: seq<Record>, g: string)
    ensures Occurrences(rs, g) >= 1 <==> g in Targets(rs)
  {
    var k := Keep(rs, HasTarget(g));
    if |k| >= 1 {
      KeepMembership(rs, HasTarget(g), k[0]);
      assert k[0] in rs && k[0].target == g;
    }
    if g in Targets(rs) {
      var r :| r in rs && r.target == g;
      KeepMembership(rs, HasTarget(g), r);
    }
  }

  /** Every genome of the filtered index counts at least one hit, and only
      those do: the genome set of the report is exactly the set of targets
      with a positive count. */
  lemma CountPositiveIff(index: Index, g: string)
    ensures CountTarget(index, g) >= 1 <==> g in AllTargets(index)
  {
    if g in AllTargets(index) {
      var f, r :| f in index && r in index[f] && r.target == g;
      OccurrencesPositive(index[f], g);
      SumByRemove(index, OccurrencesOf(g), f);
    } else {
      forall f | f in index
        ensures OccurrencesOf(g)(index[f]) == 0
      {
        OccurrencesPositive(index[f], g);
        TargetsWithinAll(index, f);
      }
      SumKeysZero(index.Keys, index, OccurrencesOf(g));
    }
  }

  /** A tally made by Tally has no zero entry, so its total is zero only
      when it is empty: the report's "totalhits == 0" branch is never taken
      for a printed line. */
  lemma TallyHasNoZero(filtered: Index, counts: map<string, nat>)
    requires counts.Keys == AllTargets(filtered)
    requires forall g :: g in counts ==> counts[g] == CountTarget(filtered, g)
    ensures forall g :: g in counts ==> counts[g] >= 1
    ensures TotalHits(counts) == 0 <==> counts == map[]
  {
    forall g | g in counts
      ensures counts[g] >= 1
    {
      CountPositiveIff(filtered, g);
    }
    if counts != map[] {
      var g :| g in counts;
      SumByRemove(counts, Count, g);
    }
  }

  /** The sum of the percentages of a report. */
  ghost function SumPercentages(percentages: map<string, real>): real
  {
    SumRealKeys(percentages.Keys, percentages)
  }

  /** A percentage is its count scaled by 100 / total. */
  lemma ShareOf(percentage: real, count: nat, asReal: real, total: nat, q: real)
    requires total > 0 && q == 100.0 / (total as real)
    requires percentage == Percentage(count, total) && asReal == count as real
    ensures percentage == asReal * q
  {
  }

  /** Every percentage of a report is its count scaled by 100 / total. */
  lemma PercentagesScale(counts: map<string, nat>, percentages: map<string, real>, asReal: map<string, real>, total: nat, q: real)
    requires percentages.Keys == counts.Keys && asReal.Keys == counts.Keys
    requires forall g :: g in counts ==> percentages[g] == Percentage(counts[g], total)
    requires forall g :: g in counts ==> asReal[g] == counts[g] as real
    requires total > 0 && q == 100.0 / (total as real)
    ensures forall g :: g in counts ==> percentages[g] == asReal[g] * q
  {
    forall g | g in counts
      ensures percentages[g] == asReal[g] * q
    {
      ShareOf(percentages[g], counts[g], asReal[g], total, q);
    }
  }

  lemma Reciprocal(t: real, q: real)
    requires t > 0.0 && q == 100.0 / t
    ensures t * q == 100.0
  {
  }

  /** Shares of a sum `t`, each scaled by `q`, add up to `t * q`. */
  lemma SumOfShares(keys: set<string>, values: map<string, real>, shares: map<string, real>, t: real, q: real)
    requires keys <= values.Keys && keys <= shares.Keys
    requires SumRealKeys(keys, values) == t && t * q == 100.0
    requires forall k :: k in keys ==> shares[k] == values[k] * q
    ensures SumRealKeys(keys, shares) == 100.0
  {
    SumRealKeysScaled(keys, values, shares, q);
  }

  /** When there are hits, the percentages of all genomes add up to 100. */
  lemma PercentagesSumTo100(counts: map<string, nat>, percentages: map<string, real>)
    requires percentages.Keys == counts.Keys
    requires forall g :: g in counts ==> percentages[g] == Percentage(counts[g], TotalHits(counts))
    requires TotalHits(counts) > 0
    ensures SumPercentages(percentages) == 100.0
  {
    var total := TotalHits(counts);
    var t := total as real;
    var q := 100.0 / t;
    Reciprocal(t, q);
    var asReal := map g | g in counts :: counts[g] as real;
    SumRealKeysOfWeights(counts.Keys, counts, Count, asReal);
    assert SumRealKeys(counts.Keys, asReal) == t;
    PercentagesScale(counts, percentages, asReal, total, q);
    SumOfShares(counts.Keys, asReal, percentages, t, q);
  }
}
