/**
 * parse_mappings (analyze.py): one record per line of a BLAST8-style
 * mapping file, grouped by fragment identifier in file order.
 */
module Mappings {
  import opened Wrappers
  import opened Fields
  import opened Subsequences
  import opened MapSums

  /** One aligned hit: the five leading fields of a line. */
  datatype Record = Record(fragment: string, target: string, identity: real, matches: int, mismatches: int)

  /** Why parsing stopped. Lines and fields are numbered from 0.
      MissingField is Python's IndexError at `fragment_info[field]`;
      BadNumber is the ValueError raised by float() or int() on that field. */
  datatype ParseError = MissingField(line: nat, field: nat) | BadNumber(line: nat, field: nat)

  /** The parsed index and the number of records read. */
  datatype Parsed = Parsed(index: map<string, seq<Record>>, count: nat)

  /** A float() parser for the identity field; None stands for its ValueError. */
  type IdentityParser = string -> Option<real>

  /** Field `k` (2, 3 or 4) converts: float() for the identity, int() for
      the two counts. */
  predicate Converts(ws: seq<string>, k: nat, parseIdentity: IdentityParser)
    requires 2 <= k < |ws|
  {
    if k == 2 then parseIdentity(ws[2]).Some? else ParseInt(ws[k]).Some?
  }

  /** Build a record from the fields of one line, checking them in the order
      analyze.py indexes and converts them: fields 0 to 2 are indexed, field 2
      converted, then field 3 indexed and converted, then field 4. */
  function ParseFields(ws: seq<string>, line: nat, parseIdentity: IdentityParser): (r: Result<Record, ParseError>)
    ensures r.Ok? <==> |ws| >= 5 && parseIdentity(ws[2]).Some? && ParseInt(ws[3]).Some? && ParseInt(ws[4]).Some?
    ensures r.Ok? ==> r.value.fragment == ws[0] && r.value.target == ws[1]
                      && Some(r.value.identity) == parseIdentity(ws[2])
                      && Some(r.value.matches) == ParseInt(ws[3])
                      && Some(r.value.mismatches) == ParseInt(ws[4])
    ensures r.Err? ==> r.error.line == line && r.error.field <= 4
    ensures r.Err? && r.error.MissingField? ==>
              r.error.field == |ws| && forall k :: 2 <= k < |ws| ==> Converts(ws, k, parseIdentity)
    ensures r.Err? && r.error.BadNumber? ==>
              2 <= r.error.field < |ws| && !Converts(ws, r.error.field, parseIdentity)
              && forall k :: 2 <= k < r.error.field ==> Converts(ws, k, parseIdentity)
  {
    if |ws| < 3 then Err(MissingField(line, |ws|))
    else match parseIdentity(ws[2])
      case None => Err(BadNumber(line, 2))
      case Some(identity) =>
        if |ws| < 4 then Err(MissingField(line, 3))
        else match ParseInt(ws[3])
          case None => Err(BadNumber(line, 3))
          case Some(matches) =>
            if |ws| < 5 then Err(MissingField(line, 4))
            else match ParseInt(ws[4])
              case None => Err(BadNumber(line, 4))
              case Some(mismatches) => Ok(Record(ws[0], ws[1], identity, matches, mismatches))
  }

  /** One line of the file, numbered `line`. */
  function ParseLine(text: string, line: nat, parseIdentity: IdentityParser): Result<Record, ParseError>
  {
    ParseFields(Split(text), line, parseIdentity)
  }

  /** A parser of numbered lines. */
  type LineParser = (string, nat) -> Result<Record, ParseError>

  /** The line parser of analyze.py for a given float() parser. */
  function LineParserOf(parseIdentity: IdentityParser): LineParser
  {
    (text: string, line: nat) => ParseLine(text, line, parseIdentity)
  }

  /** The parser reports errors at the line number it is given. */
  ghost predicate NumbersErrors(parseLine: LineParser)
  {
    forall text: string, line: nat :: parseLine(text, line).Err? ==> parseLine(text, line).error.line == line
  }

  lemma LineParserNumbersErrors(parseIdentity: IdentityParser)
    ensures NumbersErrors(LineParserOf(parseIdentity))
  {
  }

  /** All lines in order; the first bad line aborts the whole parse. */
  function ParseAll(lines: seq<string>, parseLine: LineParser): (r: Result<seq<Record>, ParseError>)
    ensures r.Ok? ==> |r.value| == |lines|
    decreases |lines|
  {
    if lines == [] then Ok([])
    else
      var n := |lines| - 1;
      match ParseAll(lines[..n], parseLine)
      case Err(e) => Err(e)
      case Ok(records) =>
        match parseLine(lines[n], n)
        case Err(e) => Err(e)
        case Ok(record) => Ok(records + [record])
  }

  /** The parse succeeds exactly when every line parses, and then yields
      each line's record at its position; otherwise it reports the error of
      the first line that does not parse. */
  lemma {:induction false} ParseAllLines(lines: seq<string>, parseLine: LineParser)
    requires NumbersErrors(parseLine)
    ensures var r := ParseAll(lines, parseLine);
      && (r.Ok? <==> forall i :: 0 <= i < |lines| ==> parseLine(lines[i], i).Ok?)
      && (r.Ok? ==> forall i :: 0 <= i < |lines| ==> parseLine(lines[i], i) == Ok(r.value[i]))
      && (r.Err? ==> r.error.line < |lines|
                     && parseLine(lines[r.error.line], r.error.line) == Err(r.error)
                     && forall i :: 0 <= i < r.error.line ==> parseLine(lines[i], i).Ok?)
    decreases |lines|
  {
    if lines != [] {
      var n := |lines| - 1;
      var init := lines[..n];
      ParseAllLines(init, parseLine);
      assert forall i :: 0 <= i < n ==> init[i] == lines[i];
      match ParseAll(init, parseLine)
      case Err(e) =>
      case Ok(records) =>
        match parseLine(lines[n], n)
        case Err(e) =>
        case Ok(record) =>
          var all := records + [record];
          assert forall i :: 0 <= i < n ==> all[i] == records[i];
    }
  }

  /** The fragment identifiers that occur in `records`. */
  function Fragments(records: seq<Record>): set<string>
  {
    set r | r in records :: r.fragment
  }

  function OfFragment(f: string): Record -> bool
  {
    (r: Record) => r.fragment == f
  }

  /** The index parse_mappings builds: every fragment seen, with its
      records in file order. */
  function Group(records: seq<Record>): (index: map<string, seq<Record>>)
    ensures index.Keys == Fragments(records)
  {
    map f | f in Fragments(records) :: Keep(records, OfFragment(f))
  }

  function Size(rs: seq<Record>): nat
  {
    |rs|
  }

  /** The number of records stored in an index. */
  ghost function TotalRecords(index: map<string, seq<Record>>): nat
  {
    SumBy(index, Size)
  }

  lemma FragmentsSnoc(records: seq<Record>, r: Record)
    ensures Fragments(records + [r]) == Fragments(records) + {r.fragment}
  {
    var all := records + [r];
    forall f | f in Fragments(all)
      ensures f in Fragments(records) + {r.fragment}
    {
      var x :| x in all && x.fragment == f;
      if x != r {
        assert x in records;
      }
    }
  }

  /** A fragment that does not occur has no records. */
  lemma KeepAbsentFragment(records: seq<Record>, f: string)
    requires f !in Fragments(records)
    ensures Keep(records, OfFragment(f)) == []
  {
    var kept := Keep(records, OfFragment(f));
    if kept != [] {
      assert kept[0] in kept;
      KeepMembership(records, OfFragment(f), kept[0]);
    }
  }

  /** Storing one record: append it to its fragment's list, or open the
      list when the fragment is new (the KeyError branch). */
  function AddRecord(index: map<string, seq<Record>>, r: Record): map<string, seq<Record>>
  {
    if r.fragment in index then index[r.fragment := index[r.fragment] + [r]]
    else index[r.fragment := [r]]
  }

  /** The group of one fragment after one more record. */
  lemma GroupSnocAt(records: seq<Record>, r: Record, f: string)
    requires f in Group(records + [r])
    ensures f in AddRecord(Group(records), r)
    ensures Group(records + [r])[f] == AddRecord(Group(records), r)[f]
  {
    FragmentsSnoc(records, r);
    KeepSnoc(records, r, OfFragment(f));
    if f != r.fragment {
      assert Keep(records, OfFragment(f)) + [] == Keep(records, OfFragment(f));
    } else if f !in Fragments(records) {
      KeepAbsentFragment(records, f);
      assert [] + [r] == [r];
    }
  }

  lemma GroupSnocKeys(records: seq<Record>, r: Record)
    ensures Group(records + [r]).Keys == AddRecord(Group(records), r).Keys
  {
    FragmentsSnoc(records, r);
  }

  lemma GroupSnocValues(records: seq<Record>, r: Record)
    ensures forall f :: f in Group(records + [r]) ==>
      f in AddRecord(Group(records), r) && Group(records + [r])[f] == AddRecord(Group(records), r)[f]
  {
    forall f | f in Group(records + [r])
      ensures f in AddRecord(Group(records), r) && Group(records + [r])[f] == AddRecord(Group(records), r)[f]
    {
      GroupSnocAt(records, r, f);
    }
  }

  /** Storing one more record in the index of a file's records gives the
      index of the file with that record appended. */
  lemma GroupSnoc(records: seq<Record>, r: Record)
    ensures Group(records + [r]) == AddRecord(Group(records), r)
  {
    GroupSnocKeys(records, r);
    GroupSnocValues(records, r);
  }

  /** parse_mappings: read the lines in order, appending each record to the
      list of its fragment and counting records; the first bad line aborts. */
  method ParseMappings(lines: seq<string>, parseIdentity: IdentityParser) returns (r: Result<Parsed, ParseError>)
    ensures ParseAll(lines, LineParserOf(parseIdentity)).Err? ==> r == Err(ParseAll(lines, LineParserOf(parseIdentity)).error)
    ensures ParseAll(lines, LineParserOf(parseIdentity)).Ok? ==> r == Ok(Parsed(Group(ParseAll(lines, LineParserOf(parseIdentity)).value), |lines|))
    ensures r.Ok? ==> r.value.count == TotalRecords(r.value.index)
  {
    var index: map<string, seq<Record>> := map[];
    var counter := 0;
    ghost var records: seq<Record> := [];
    for i := 0 to |lines|
      invariant ParseAll(lines[..i], LineParserOf(parseIdentity)) == Ok(records)
      invariant index == Group(records)
      invariant counter == i == |records|
    {
      match ParseLine(lines[i], i, parseIdentity)
      case Err(e) =>
        ParseStopsAt(lines, i, LineParserOf(parseIdentity), records);
        return Err(e);
      case Ok(record) =>
        ParseGoesOn(lines, i, LineParserOf(parseIdentity), records, record);
        if record.fragment in index {
          index := index[record.fragment := index[record.fragment] + [record]];
        } else {
          index := index[record.fragment := [record]];
        }
        counter := counter + 1;
        records := records + [record];
    }
    assert lines[..|lines|] == lines;
    GroupTotal(records);
    r := Ok(Parsed(index, counter));
  }

  /** A line that parses extends the records and their index by one. */
  lemma ParseGoesOn(lines: seq<string>, i: nat, parseLine: LineParser, records: seq<Record>, record: Record)
    requires i < |lines| && ParseAll(lines[..i], parseLine) == Ok(records)
    requires parseLine(lines[i], i) == Ok(record)
    ensures ParseAll(lines[..i + 1], parseLine) == Ok(records + [record])
    ensures Group(records + [record]) == AddRecord(Group(records), record)
  {
    assert lines[..i + 1][..i] == lines[..i];
    GroupSnoc(records, record);
  }

  /** A line that does not parse ends the parse with its error. */
  lemma ParseStopsAt(lines: seq<string>, i: nat, parseLine: LineParser, records: seq<Record>)
    requires i < |lines| && ParseAll(lines[..i], parseLine) == Ok(records)
    requires parseLine(lines[i], i).Err?
    ensures ParseAll(lines, parseLine) == Err(parseLine(lines[i], i).error)
  {
    assert lines[..i + 1][..i] == lines[..i];
    PrefixErrorAborts(lines, i + 1, parseLine);
  }

  /** An error in a prefix of the file is the error of the whole file. */
  lemma {:induction false} PrefixErrorAborts(lines: seq<string>, k: nat, parseLine: LineParser)
    requires k <= |lines| && ParseAll(lines[..k], parseLine).Err?
    ensures ParseAll(lines, parseLine) == ParseAll(lines[..k], parseLine)
    decreases |lines| - k
  {
    if k < |lines| {
      assert lines[..k + 1][..k] == lines[..k];
      PrefixErrorAborts(lines, k + 1, parseLine);
    } else {
      assert lines[..k] == lines;
    }
  }

  /** The record counter equals the number of records in the index. */
  lemma {:induction false} GroupTotal(records: seq<Record>)
    ensures TotalRecords(Group(records)) == |records|
    decreases |records|
  {
    if records != [] {
      var init, r := records[..|records| - 1], records[|records| - 1];
      assert init + [r] == records;
      GroupTotal(init);
      var index := Group(init);
      GroupSnoc(init, r);
      if r.fragment in index {
        SumByUpdate(index, Size, r.fragment, index[r.fragment] + [r]);
      } else {
        SumByInsert(index, Size, r.fragment, [r]);
      }
    }
  }

  /** Every group is non-empty, holds only records of its own fragment,
      and lists them in file order. */
  lemma GroupedByFragment(records: seq<Record>, f: string)
    requires f in Group(records)
    ensures Group(records)[f] != []
    ensures forall r :: r in Group(records)[f] ==> r.fragment == f
    ensures IsSubsequence(Group(records)[f], records)
  {
    KeepIsSubsequence(records, OfFragment(f));
    var x :| x in records && x.fragment == f;
    KeepMembership(records, OfFragment(f), x);
  }

  /** Every record read is stored in the group of its fragment. */
  lemma GroupHoldsEveryRecord(records: seq<Record>, i: nat)
    requires i < |records|
    ensures records[i].fragment in Group(records)
    ensures records[i] in Group(records)[records[i].fragment]
  {
    KeepMembership(records, OfFragment(records[i].fragment), records[i]);
  }

  /** A line with fewer than five fields (an empty line among them) makes
      the whole parse fail. */
  lemma ShortLineAborts(lines: seq<string>, parseIdentity: IdentityParser, i: nat)
    requires i < |lines| && |Split(lines[i])| < 5
    ensures ParseAll(lines, LineParserOf(parseIdentity)).Err?
  {
    LineParserNumbersErrors(parseIdentity);
    ParseAllLines(lines, LineParserOf(parseIdentity));
    assert !LineParserOf(parseIdentity)(lines[i], i).Ok?;
  }

  /** Fields after the fifth are never looked at. */
  lemma ExtraFieldsIgnored(ws: seq<string>, line: nat, parseIdentity: IdentityParser)
    requires |ws| >= 5
    ensures ParseFields(ws, line, parseIdentity) == ParseFields(ws[..5], line, parseIdentity)
  {
  }

  /** Five fields holding a record's values build that record. */
  lemma FieldsRoundTrip(r: Record, ws: seq<string>, line: nat, parseIdentity: IdentityParser)
    requires |ws| == 5 && ws[0] == r.fragment && ws[1] == r.target
    requires parseIdentity(ws[2]) == Some(r.identity)
    requires ParseInt(ws[3]) == Some(r.matches) && ParseInt(ws[4]) == Some(r.mismatches)
    ensures ParseFields(ws, line, parseIdentity) == Ok(r)
  {
  }

  /** The line a record is written as parses back to that record. */
  lemma LineRoundTrip(r: Record, identityText: string, line: nat, parseIdentity: IdentityParser)
    requires IsWord(r.fragment) && IsWord(r.target) && IsWord(identityText)
    requires parseIdentity(identityText) == Some(r.identity)
    ensures ParseLine(Join([r.fragment, r.target, identityText, IntToString(r.matches), IntToString(r.mismatches)]),
                      line, parseIdentity) == Ok(r)
  {
    var ws := [r.fragment, r.target, identityText, IntToString(r.matches), IntToString(r.mismatches)];
    ParseIntOfIntToString(r.matches);
    ParseIntOfIntToString(r.mismatches);
    IntToStringIsWord(r.matches);
    IntToStringIsWord(r.mismatches);
    SplitJoin(ws);
    FieldsRoundTrip(r, ws, line, parseIdentity);
  }
}
