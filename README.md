# analyze.py in Dafny

A model of the analysis core of `analyze.py`, a script that reads
BLAST8-style mapping results of DNA fragments against reference genomes and
reports how many of the surviving hits fall on each genome.

- `parse_mappings` reads the mapping file line by line. It splits each line
  on whitespace and builds a record from the first five fields: fragment,
  target, identity, matches and mismatches. It appends the record to the
  list of its fragment and counts the records. A line with fewer than five
  fields, or with a number field that does not convert, aborts the whole
  read.
- `filter_hits` works in passes:
  - When asked to, it drops every fragment whose hits name more than one
    target (a fragment is *informative* when exactly one target is named).
  - It keeps, per fragment, the hits that meet the identity, match and
    mismatch thresholds, and drops fragments left with no hit. The targets
    of the kept hits form the set of genomes.
  - When given a fragment name, it looks that fragment up in the result.
  - It counts hits per genome and gives each genome's share of all hits as
    a percentage.

Modules, one file each:

| file | module | what it holds |
|---|---|---|
| `wrappers.dfy` | `Wrappers` | `Option` and `Result` |
| `subsequences.dfy` | `Subsequences` | `Keep`, the order-preserving selection used for grouping and for the quality pass |
| `map_sums.dfy` | `MapSums` | sums over dictionary values, in any key order (`sum(d.values())`) |
| `fields.dfy` | `Fields` | Python 2 `str.split()` and `int()` on one field |
| `mappings.dfy` | `Mappings` | `parse_mappings` |
| `hit_filter.dfy` | `HitFilter` | the informativeness pass and the quality pass |
| `genome_tally.dfy` | `GenomeTally` | the per-genome counts and percentages |
| `analyze.dfy` | `Analyze` | `filter_hits` as a whole, and results that span the pipeline |

The loops of the script are methods with loops. Each is proved against a
specification function:

- `ParseMappings` against `ParseAll` and `Group`;
- `RemoveNonInformative` against `InformativePart`;
- `QualityFilter` against `FilterByQuality` and `AllTargets`;
- `Tally` against `CountTarget` and `TotalRecords`;
- `Percentages` against `Percentage` and `TotalHits`.

The properties the script relies on are lemmas about those functions.

Where the code and its documentation differ, the model follows the code.
`filter_hits` looks up the `--print` fragment with `filtered_dict[...]`
(analyze.py:69-70). A fragment that the filters removed, or that never
occurred, therefore raises `KeyError` and ends the run; it is not silently
skipped. `Analyze.FilterHits` returns `Err(UnknownFragment(name))` in exactly
that case.

## Model

| member | source | states |
|---|---|---|
| Fields.Split | analyze.py:16 | every field that `line.split()` produces is non-empty and holds no whitespace |
| Fields.SplitJoin | analyze.py:16 | splitting a tab-separated, newline-terminated line of such fields gives back exactly those fields |
| Fields.ParseInt | analyze.py:20-21 | `int()` succeeds exactly on an optional sign followed by one or more decimal digits |
| Fields.ParseIntOfIntToString | analyze.py:20-21 | `int(str(n)) == n` for every integer `n` |
| Mappings.ParseFields | analyze.py:16-22 | a record is built exactly when there are at least five fields and fields 2-4 convert, and it then holds those five values; otherwise the error names the line and the first missing field (IndexError) or the first field that does not convert (ValueError), in Python's evaluation order |
| Mappings.ExtraFieldsIgnored | analyze.py:16-21 | fields after the fifth do not change the outcome |
| Mappings.FieldsRoundTrip | analyze.py:16-22 | five fields holding a record's values build that record |
| Mappings.LineRoundTrip | analyze.py:16-22 | the tab-separated line written from a record parses back to that record |
| Mappings.ParseAll | analyze.py:15-22 | a successful read yields one record per line |
| Mappings.ParseAllLines | analyze.py:15-22 | the read succeeds iff every line parses, and then record `i` is line `i`'s record; on failure, the error is that of the first bad line and every earlier line parsed |
| Mappings.ShortLineAborts | analyze.py:16-21 | any line with fewer than five fields, an empty line included, makes the whole read fail |
| Mappings.PrefixErrorAborts | analyze.py:15-21 | an error within the first `k` lines is the error of the whole file |
| Mappings.Group | analyze.py:22-26 | the index holds exactly the fragments that occur |
| Mappings.GroupSnoc | analyze.py:22-26 | appending a record to its fragment's list, or opening the list on `KeyError`, turns the index of a prefix into the index of the prefix plus that record |
| Mappings.GroupTotal | analyze.py:22-27 | the number of records stored in the index equals the number of records read |
| Mappings.GroupedByFragment | analyze.py:22-26 | every list in the index is non-empty, holds only its own fragment's records, and is a subsequence of the file's records (file order) |
| Mappings.GroupHoldsEveryRecord | analyze.py:22-26 | every record read is in the list of its fragment |
| Mappings.ParseMappings | analyze.py:10-31 | the loop returns the first line's error when `ParseAll` fails; otherwise it returns `Group` of the records with the counter equal to the number of lines, and the counter equals the number of records in the index |
| HitFilter.InformativePart | analyze.py:43-52 | with removal on, a fragment is kept iff it is informative, and kept lists are unchanged; with removal off, the dictionary is the input |
| HitFilter.AddTargets | analyze.py:46-48 | adding the target of every record gives the old set plus the records' targets |
| HitFilter.RemoveNonInformative | analyze.py:43-52 | the loop computes `InformativePart` |
| HitFilter.InformativeIffSingleTarget | analyze.py:46-49 | a fragment is informative iff it has a hit and every hit names the target of the first |
| HitFilter.FilterByQuality | analyze.py:56-66 | a fragment survives iff one of its records passes all three thresholds, and then its list is exactly its passing records in order |
| HitFilter.QualityFilter | analyze.py:56-66 | the loop computes `FilterByQuality`, and `genomes` is exactly the set of targets of the surviving records |
| HitFilter.AllTargetsInsert | analyze.py:64-66 | storing a fresh fragment adds exactly its records' targets to `genomes` |
| HitFilter.QualityPassKeepsExactlyPassing | analyze.py:58-63 | every kept record passes and comes from the input list, in order, and no passing record is dropped |
| HitFilter.QualityFilterIdempotent | analyze.py:56-66 | running the quality pass on its own result changes nothing |
| HitFilter.PassingStaysInformative | analyze.py:43-66 | a fragment kept by both passes is still informative |
| GenomeTally.ZeroCounts | analyze.py:78-80 | `bactdict` starts with a zero for every genome and nothing else |
| GenomeTally.CountHits | analyze.py:83-84 | counting one fragment's list adds to each genome the number of its records naming that genome, and adds the length of the list to the total |
| GenomeTally.Tally | analyze.py:78-84 | each genome's count is the number of surviving records naming it, and the counts add up to the number of surviving records |
| GenomeTally.SumCounts | analyze.py:88 | the loop computes `sum(bactdict.values())` |
| GenomeTally.Percentages | analyze.py:86-92 | each genome's percentage is `100 * count / total`, or 0 when the total is 0 |
| GenomeTally.OccurrencesPositive | analyze.py:64-84 | a list counts at least one hit for `g` iff `g` is among its targets |
| GenomeTally.CountPositiveIff | analyze.py:64-84 | a genome counts at least one hit iff it is the target of a surviving record |
| GenomeTally.TallyHasNoZero | analyze.py:64-92 | every count in the report is at least 1, so the total is 0 only when there is no genome, and the `totalhits == 0` branch never prints a line |
| GenomeTally.PercentagesSumTo100 | analyze.py:86-92 | when there is at least one hit, the percentages of all genomes add up to 100 |
| Analyze.FilterHits | analyze.py:35-94 | the run fails exactly when a named fragment is not in the filtered dictionary; otherwise it returns the filtered dictionary of both passes, the removed and remaining fragment counts as printed, the looked-up list, and the counts and percentages of the summary |
| Analyze.FilteredWithinInput | analyze.py:43-66 | the filters never add records: the filtered dictionary holds no more records than the input |
| Analyze.SummaryOfParsedFile | analyze.py:10-94 | after a successful read, the hits in the summary never exceed the records read, every reported genome has a hit, and with any genome the percentages add up to 100 |

## Left out

- The command line (analyze.py:99-128): argument parsing, defaults and help output. `FilterHits` takes its options as parameters.
- Opening and reading the file (analyze.py:13, 15). `ParseMappings` takes the file's lines as a sequence of strings.
- Every `print`, including the per-record `-p` listing (analyze.py:71-75) and the number formatting of the report. The figures those lines print are returned in `FilterReport` and `Parsed`.
- `float()` on the identity field (analyze.py:19) is a parameter `parseIdentity` of type `string -> Option<real>`. `None` stands for its ValueError. Identities are exact reals, so NaN, infinities and floating-point rounding are not modelled. The same holds for the percentage division (analyze.py:92).
- The `int()`/`float()` conversions of the thresholds at analyze.py:37-39. `Thresholds` holds the values already converted.
- Python 2's split between `int` and `long`: integers are unbounded here, as `int()` returns a `long` when needed.
- Dictionary and set iteration order: the loops take keys in an arbitrary order. The results are dictionaries and sets, so order does not show in them. Order would show only in the printed output.
- The identity field is not checked to lie in 0-100, as the script does not check it.
