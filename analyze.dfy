/**
 * filter_hits (analyze.py) as a whole: the informativeness pass, the
 * quality pass, the optional look-up of one fragment, and the per-genome
 * summary, with the figures the function prints returned as values.
 */
module Analyze {
  import opened Wrappers
  import opened MapSums
  import opened Mappings
  import opened HitFilter
  import opened GenomeTally

  /** Looking up a fragment the filtered dictionary does not hold. */
  datatype FilterError = UnknownFragment(fragment: string)

  /** Everything filter_hits returns or prints, apart from the per-record
      listing of the -p option. */
  datatype FilterReport = FilterReport(
    filtered: Index,
    removedNonInformative: nat,
    remainingInformative: nat,
    removedByQuality: nat,
    remainingFiltered: nat,
    shown: Option<seq<Record>>,
    counts: map<string, nat>,
    percentages: map<string, real>)

  /** The dictionary both passes leave. */
  function Filtered(infodict: Index, removeNonInformative: bool, t: Thresholds): Index
  {
    FilterByQuality(InformativePart(infodict, removeNonInformative), t)
  }

  /** The fragment asked for with --print is missing from the result: Python's
      KeyError. An empty name asks for nothing. */
  predicate LookupFails(filtered: Index, printFragment: string)
  {
    printFragment != "" && printFragment !in filtered
  }

  /** A dictionary holds at least as many keys as any of its sub-dictionaries. */
  lemma KeysShrink(small: Index, big: Index)
    requires small.Keys <= big.Keys
    ensures |small.Keys| <= |big.Keys|
  {
    assert big.Keys == small.Keys + (big.Keys - small.Keys);
  }

  method FilterHits(infodict: Index, removeNonInformative: bool, printFragment: string, t: Thresholds)
    returns (r: Result<FilterReport, FilterError>)
    ensures r.Err? <==> LookupFails(Filtered(infodict, removeNonInformative, t), printFragment)
    ensures r.Err? ==> r.error == UnknownFragment(printFragment)
    ensures r.Ok? ==> var report := r.value;
      var informative := InformativePart(infodict, removeNonInformative);
      && report.filtered == Filtered(infodict, removeNonInformative, t)
      && report.removedNonInformative + report.remainingInformative == |infodict.Keys|
      && report.remainingInformative == |informative.Keys|
      && report.removedByQuality + report.remainingFiltered == |informative.Keys|
      && report.remainingFiltered == |report.filtered.Keys|
      && report.shown == (if printFragment == "" then None else Some(report.filtered[printFragment]))
      && report.counts.Keys == AllTargets(report.filtered)
      && (forall g :: g in report.counts ==> report.counts[g] == CountTarget(report.filtered, g))
      && TotalHits(report.counts) == TotalRecords(report.filtered)
      && report.percentages.Keys == report.counts.Keys
      && (forall g :: g in report.counts ==>
            report.percentages[g] == Percentage(report.counts[g], TotalHits(report.counts)))
  {
    var informative := RemoveNonInformative(infodict, removeNonInformative);
    KeysShrink(informative, infodict);
    var removedNonInformative := |infodict.Keys| - |informative.Keys|;

    var filtered, genomes := QualityFilter(informative, t);
    KeysShrink(filtered, informative);
    var removedByQuality := |informative.Keys| - |filtered.Keys|;

    var shown := None;
    if printFragment != "" {
      if printFragment !in filtered {
        return Err(UnknownFragment(printFragment));
      }
      shown := Some(filtered[printFragment]);
    }

    var counts := Tally(filtered, genomes);
    var percentages := Percentages(counts);
    r := Ok(FilterReport(filtered, removedNonInformative, |informative.Keys|,
                         removedByQuality, |filtered.Keys|, shown, counts, percentages));
  }

  /** Neither pass invents records: the surviving records are no more than
      those of the input dictionary. */
  lemma FilteredWithinInput(infodict: Index, removeNonInformative: bool, t: Thresholds)
    ensures TotalRecords(Filtered(infodict, removeNonInformative, t)) <= TotalRecords(infodict)
  {
    var informative := InformativePart(infodict, removeNonInformative);
    var filtered := Filtered(infodict, removeNonInformative, t);
    SumBySubmap(informative, infodict, Size);
    SumBySubmap(filtered, informative, Size);
  }

  /** From the parsed mapping file to the summary: the hits counted for all
      genomes never exceed the lines read (parse_mappings's counter), every
      genome reported has at least one hit, and with any hit the percentages
      add up to 100. */
  lemma SummaryOfParsedFile(parsed: Parsed, removeNonInformative: bool, t: Thresholds, report: FilterReport)
    requires parsed.count == TotalRecords(parsed.index)
    requires report.filtered == Filtered(parsed.index, removeNonInformative, t)
    requires report.counts.Keys == AllTargets(report.filtered)
    requires forall g :: g in report.counts ==> report.counts[g] == CountTarget(report.filtered, g)
    requires TotalHits(report.counts) == TotalRecords(report.filtered)
    requires report.percentages.Keys == report.counts.Keys
    requires forall g :: g in report.counts ==>
               report.percentages[g] == Percentage(report.counts[g], TotalHits(report.counts))
    ensures TotalHits(report.counts) <= parsed.count
    ensures forall g :: g in report.counts ==> report.counts[g] >= 1
    ensures report.counts != map[] ==> SumPercentages(report.percentages) == 100.0
  {
    FilteredWithinInput(parsed.index, removeNonInformative, t);
    TallyHasNoZero(report.filtered, report.counts);
    if report.counts != map[] {
      PercentagesSumTo100(report.counts, report.percentages);
    }
  }
}
