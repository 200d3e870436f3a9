/**
 * The two filtering passes of filter_hits (analyze.py): dropping fragments
 * whose hits name more than one target, then dropping the records that
 * fail the quality thresholds and the fragments left without records.
 */
module HitFilter {
  import opened Subsequences
  import opened Mappings

  type Index = map<string, seq<Record>>

  /** The user's criteria: minimum identity, minimum matches, maximum mismatches. */
  datatype Thresholds = Thresholds(minIdentity: real, minMatches: int, maxMismatches: int)

  /** The condition a single record must meet to survive the quality pass. */
  predicate Passes(r: Record, t: Thresholds)
  {
    r.identity >= t.minIdentity && r.matches >= t.minMatches && r.mismatches <= t.maxMismatches
  }

  function PassesFor(t: Thresholds): Record -> bool
  {
    (r: Record) => Passes(r, t)
  }

  /** The records of a list that pass, in list order. */
  function Passing(rs: seq<Record>, t: Thresholds): seq<Record>
  {
    Keep(rs, PassesFor(t))
  }

  /** The distinct targets named by a list of records. */
  function Targets(rs: seq<Record>): set<string>
  {
    set r | r in rs :: r.target
  }

  /** A fragment is informative when all its hits name one and the same target. */
  predicate Informative(rs: seq<Record>)
  {
    |Targets(rs)| == 1
  }

  /** The dictionary the first pass leaves: with removal on, the informative
      fragments with their record lists untouched; with removal off, the
      input itself. */
  function InformativePart(index: Index, removeNonInformative: bool): (r: Index)
    ensures r.Keys <= index.Keys
    ensures forall f :: f in r ==> r[f] == index[f]
    ensures removeNonInformative ==> forall f :: f in index ==> (f in r <==> Informative(index[f]))
    ensures !removeNonInformative ==> r == index
  {
    if removeNonInformative then map f | f in index && Informative(index[f]) :: index[f]
    else index
  }

  /** The dictionary the quality pass leaves: each fragment's passing
      records, and only the fragments with at least one. */
  function FilterByQuality(index: Index, t: Thresholds): (r: Index)
    ensures r.Keys <= index.Keys
    ensures forall f :: f in index ==> (f in r <==> Passing(index[f], t) != [])
    ensures forall f :: f in r ==> r[f] == Passing(index[f], t)
  {
    map f | f in index && Passing(index[f], t) != [] :: Passing(index[f], t)
  }

  /** The targets named by any record of an index (`genomes` in analyze.py). */
  function AllTargets(index: Index): set<string>
  {
    set f, r | f in index && r in index[f] :: r.target
  }

  /** The targets of one fragment are among the targets of the index. */
  lemma TargetsWithinAll(index: Index, f: string)
    requires f in index
    ensures forall r :: r in index[f] ==> r.target in AllTargets(index)
  {
  }

  /** genomes.add(r.target) for every record of `rs`. */
  method AddTargets(genomes: set<string>, rs: seq<Record>) returns (result: set<string>)
    ensures result == genomes + Targets(rs)
  {
    result := genomes;
    for j := 0 to |rs|
      invariant result == genomes + Targets(rs[..j])
    {
      assert rs[..j + 1] == rs[..j] + [rs[j]];
      result := result + {rs[j].target};
    }
    assert rs[..|rs|] == rs;
  }

  /** The informativeness pass: collect each fragment's hit genomes and keep
      the fragment when there is exactly one. */
  method RemoveNonInformative(index: Index, removeNonInformative: bool) returns (informative: Index)
    ensures informative == InformativePart(index, removeNonInformative)
  {
    if !removeNonInformative {
      return index;
    }
    informative := map[];
    var todo := index.Keys;
    while todo != {}
      invariant todo <= index.Keys
      invariant informative == map f | f in index && f !in todo && Informative(index[f]) :: index[f]
      decreases todo
    {
      var fragment :| fragment in todo;
      var hitGenomes := AddTargets({}, index[fragment]);
      if |hitGenomes| == 1 {
        informative := informative[fragment := index[fragment]];
      }
      todo := todo - {fragment};
    }
  }

  /** The quality pass: keep each fragment's passing records, drop fragments
      left empty, and gather the targets of the records kept. */
  method QualityFilter(informative: Index, t: Thresholds) returns (filtered: Index, genomes: set<string>)
    ensures filtered == FilterByQuality(informative, t)
    ensures genomes == AllTargets(filtered)
  {
    filtered := map[];
    genomes := {};
    var todo := informative.Keys;
    while todo != {}
      invariant todo <= informative.Keys
      invariant filtered == map f | f in informative && f !in todo && Passing(informative[f], t) != [] :: Passing(informative[f], t)
      invariant genomes == AllTargets(filtered)
      decreases todo
    {
      var fragment :| fragment in todo;
      var hits := informative[fragment];
      var tuplelist := [];
      for j := 0 to |hits|
        invariant tuplelist == Passing(hits[..j], t)
      {
        assert hits[..j + 1][..j] == hits[..j];
        if Passes(hits[j], t) {
          tuplelist := tuplelist + [hits[j]];
        }
      }
      assert hits[..|hits|] == hits;
      if tuplelist != [] {
        genomes := AddTargets(genomes, tuplelist);
        AllTargetsInsert(filtered, fragment, tuplelist);
        filtered := filtered[fragment := tuplelist];
      }
      todo := todo - {fragment};
    }
  }

  /** Adding a fragment adds the targets of its records. */
  lemma AllTargetsInsert(index: Index, f: string, rs: seq<Record>)
    requires f !in index
    ensures AllTargets(index[f := rs]) == AllTargets(index) + Targets(rs)
  {
    var after := index[f := rs];
    forall g | g in AllTargets(after)
      ensures g in AllTargets(index) + Targets(rs)
    {
      var f': string, r: Record :| f' in after && r in after[f'] && r.target == g;
      if f' != f {
        assert r in index[f'];
      }
    }
    forall g | g in AllTargets(index) + Targets(rs)
      ensures g in AllTargets(after)
    {
      if g in AllTargets(index) {
        var f': string, r: Record :| f' in index && r in index[f'] && r.target == g;
        assert r in after[f'];
      } else {
        var r :| r in rs && r.target == g;
        assert r in after[f];
      }
    }
  }

  /** Informative means: at least one hit, and every hit names the target
      of the first. */
  lemma InformativeIffSingleTarget(rs: seq<Record>)
    ensures Informative(rs) <==> rs != [] && forall r :: r in rs ==> r.target == rs[0].target
  {
    if rs != [] {
      var g := rs[0].target;
      assert g in Targets(rs);
      if forall r :: r in rs ==> r.target == g {
        assert Targets(rs) == {g};
      }
      if Informative(rs) {
        assert |Targets(rs) - {g}| == 0;
        forall r | r in rs
          ensures r.target == g
        {
          assert r.target in Targets(rs);
        }
      }
    } else {
      assert Targets(rs) == {};
    }
  }

  /** Every record the quality pass keeps meets the thresholds, each
      fragment's list is exactly the passing records of its input list in
      their order, and no passing record is lost. */
  lemma QualityPassKeepsExactlyPassing(index: Index, t: Thresholds, f: string)
    requires f in index
    ensures f in FilterByQuality(index, t) ==> IsSubsequence(FilterByQuality(index, t)[f], index[f])
    ensures forall r :: r in index[f] && Passes(r, t) ==>
              f in FilterByQuality(index, t) && r in FilterByQuality(index, t)[f]
    ensures f in FilterByQuality(index, t) ==>
              forall r :: r in FilterByQuality(index, t)[f] ==> r in index[f] && Passes(r, t)
  {
    KeepIsSubsequence(index[f], PassesFor(t));
    forall r | r in index[f]
      ensures r in Passing(index[f], t) <==> Passes(r, t)
    {
      KeepMembership(index[f], PassesFor(t), r);
    }
    forall r | r in Passing(index[f], t)
      ensures r in index[f]
    {
      KeepMembership(index[f], PassesFor(t), r);
    }
  }

  /** Running the quality pass on its own result changes nothing. */
  lemma QualityFilterIdempotent(index: Index, t: Thresholds)
    ensures FilterByQuality(FilterByQuality(index, t), t) == FilterByQuality(index, t)
  {
    var once := FilterByQuality(index, t);
    var twice := FilterByQuality(once, t);
    forall f | f in once
      ensures Passing(once[f], t) == once[f]
    {
      KeepIdempotent(index[f], PassesFor(t));
    }
    assert twice.Keys == once.Keys;
  }

  /** The quality pass keeps an informative fragment informative. */
  lemma PassingStaysInformative(rs: seq<Record>, t: Thresholds)
    requires Informative(rs) && Passing(rs, t) != []
    ensures Informative(Passing(rs, t))
  {
    var kept := Passing(rs, t);
    InformativeIffSingleTarget(rs);
    forall r | r in kept
      ensures r in rs
    {
      KeepMembership(rs, PassesFor(t), r);
    }
    assert kept[0] in kept;
    InformativeIffSingleTarget(kept);
  }
}
