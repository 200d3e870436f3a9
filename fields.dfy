/**
 * The text-level pieces of line parsing in analyze.py: Python 2's
 * `str.split()` with no separator and `int(...)` on one field.
 */
module Fields {
  import opened Wrappers

  /** The characters `str.split()` treats as whitespace on a byte string. */
  predicate IsSpace(c: char)
  {
    c == ' ' || c == '\t' || c == '\n' || c == '\r' || c == '\U{0B}' || c == '\U{0C}'
  }

  /** A field produced by splitting: non-empty, no whitespace inside. */
  predicate IsWord(w: string)
  {
    w != [] && forall i :: 0 <= i < |w| ==> !IsSpace(w[i])
  }

  /** `s` with its leading whitespace removed. */
  function TrimStart(s: string): (r: string)
    ensures |r| <= |s| && r == s[|s| - |r|..]
    ensures r == [] || !IsSpace(r[0])
  {
    if s != [] && IsSpace(s[0]) then TrimStart(s[1..]) else s
  }

  /** The length of the run of non-whitespace characters that starts `s`. */
  function WordLength(s: string): (n: nat)
    ensures n <= |s|
    ensures forall i :: 0 <= i < n ==> !IsSpace(s[i])
    ensures n < |s| ==> IsSpace(s[n])
  {
    if s == [] || IsSpace(s[0]) then 0 else 1 + WordLength(s[1..])
  }

  /** Python's `s.split()`: the maximal runs of non-whitespace, in order. */
  function Split(s: string): (words: seq<string>)
    ensures forall w :: w in words ==> IsWord(w)
    decreases |s|
  {
    var t := TrimStart(s);
    if t == [] then []
    else
      var n := WordLength(t);
      assert n > 0 && IsWord(t[..n]);
      var rest := Split(t[n..]);
      [t[..n]] + rest
  }

  /** A record line as a tool writes it: fields separated by tabs, ended by a newline. */
  function Join(ws: seq<string>): string
  {
    if ws == [] then []
    else if |ws| == 1 then ws[0] + "\n"
    else ws[0] + "\t" + Join(ws[1..])
  }

  lemma SplitSkipsSpace(c: char, s: string)
    requires IsSpace(c)
    ensures Split([c] + s) == Split(s)
  {
    assert ([c] + s)[1..] == s;
  }

  lemma {:induction false} WordLengthOfWord(w: string, rest: string)
    requires IsWord(w) && (rest == [] || IsSpace(rest[0]))
    ensures WordLength(w + rest) == |w|
    decreases |w|
  {
    assert (w + rest)[1..] == w[1..] + rest;
    if |w| > 1 {
      WordLengthOfWord(w[1..], rest);
    } else {
      assert w[1..] + rest == rest;
    }
  }

  /** A word followed by whitespace splits off as the first field. */
  lemma SplitWordThenSpace(w: string, c: char, rest: string)
    requires IsWord(w) && IsSpace(c)
    ensures Split(w + [c] + rest) == [w] + Split(rest)
  {
    var line := w + [c] + rest;
    assert TrimStart(line) == line;
    WordLengthOfWord(w, [c] + rest);
    assert line == w + ([c] + rest);
    assert line[..|w|] == w;
    assert line[|w|..] == [c] + rest;
    SplitSkipsSpace(c, rest);
  }

  /** A word followed by one whitespace character is a single field. */
  lemma SplitWordThenEnd(w: string, c: char)
    requires IsWord(w) && IsSpace(c)
    ensures Split(w + [c]) == [w]
  {
    var empty: string := [];
    SplitWordThenSpace(w, c, empty);
    assert w + [c] + empty == w + [c];
    assert Split(empty) == [];
  }

  lemma SplitJoinOne(ws: seq<string>)
    requires |ws| == 1 && IsWord(ws[0])
    ensures Split(Join(ws)) == ws
  {
    assert Join(ws) == ws[0] + ['\n'];
    SplitWordThenEnd(ws[0], '\n');
    assert [ws[0]] == ws;
  }

  lemma SplitJoinCons(ws: seq<string>)
    requires |ws| > 1 && IsWord(ws[0])
    ensures Split(Join(ws)) == [ws[0]] + Split(Join(ws[1..]))
  {
    assert Join(ws) == ws[0] + ['\t'] + Join(ws[1..]);
    SplitWordThenSpace(ws[0], '\t', Join(ws[1..]));
  }

  /** Splitting a joined line gives back its fields. */
  lemma {:induction false} SplitJoin(ws: seq<string>)
    requires forall w :: w in ws ==> IsWord(w)
    ensures Split(Join(ws)) == ws
    decreases |ws|
  {
    if |ws| == 1 {
      SplitJoinOne(ws);
    } else if |ws| > 1 {
      SplitJoinCons(ws);
      SplitJoin(ws[1..]);
      assert [ws[0]] + ws[1..] == ws;
    }
  }

  predicate IsDigit(c: char)
  {
    '0' as int <= c as int <= '9' as int
  }

  /** One or more decimal digits. */
  predicate AllDigits(s: string)
  {
    s != [] && forall i :: 0 <= i < |s| ==> IsDigit(s[i])
  }

  /** The value of a string of decimal digits (leading zeros allowed). */
  function DigitsValue(s: string): nat
    requires forall i :: 0 <= i < |s| ==> IsDigit(s[i])
  {
    if s == [] then 0
    else
      assert IsDigit(s[|s| - 1]);
      10 * DigitsValue(s[..|s| - 1]) + (s[|s| - 1] as int - '0' as int)
  }

  /** Python 2's `int(s)` in base 10 on a field without whitespace: an
      optional sign followed by one or more digits; anything else is a
      ValueError, here None. */
  function ParseInt(s: string): (r: Option<int>)
    ensures r.Some? <==> AllDigits(s) || (|s| > 1 && (s[0] == '+' || s[0] == '-') && AllDigits(s[1..]))
  {
    if |s| > 0 && (s[0] == '+' || s[0] == '-') then
      var body := s[1..];
      if AllDigits(body) then
        var v: int := DigitsValue(body);
        Some(if s[0] == '-' then -v else v)
      else None
    else if AllDigits(s) then Some(DigitsValue(s))
    else None
  }

  function DigitChar(d: nat): char
    requires d < 10
  {
    ('0' as int + d) as char
  }

  /** Python's `str(n)` for a non-negative integer. */
  function NatToString(n: nat): (s: string)
    ensures AllDigits(s)
  {
    if n < 10 then [DigitChar(n)] else NatToString(n / 10) + [DigitChar(n % 10)]
  }

  /** Python's `str(n)`. */
  function IntToString(n: int): string
  {
    if n < 0 then "-" + NatToString(-n) else NatToString(n)
  }

  lemma {:induction false} DigitsValueOfNatToString(n: nat)
    ensures DigitsValue(NatToString(n)) == n
  {
    if n >= 10 {
      DigitsValueOfNatToString(n / 10);
      var s := NatToString(n);
      assert s[..|s| - 1] == NatToString(n / 10);
    }
  }

  /** Digits are not whitespace. */
  lemma DigitsAreWord(s: string)
    requires AllDigits(s)
    ensures IsWord(s)
  {
    forall i | 0 <= i < |s|
      ensures !IsSpace(s[i])
    {
      assert IsDigit(s[i]);
    }
  }

  /** `str(n)` is a single field. */
  lemma IntToStringIsWord(n: int)
    ensures IsWord(IntToString(n))
  {
    var digits := NatToString(if n < 0 then -n else n);
    DigitsAreWord(digits);
    if n < 0 {
      var s := IntToString(n);
      assert s == "-" + digits;
      assert forall i :: 1 <= i < |s| ==> s[i] == digits[i - 1];
    }
  }

  /** int(str(n)) == n. */
  lemma ParseIntOfIntToString(n: int)
    ensures ParseInt(IntToString(n)) == Some(n)
  {
    if n < 0 {
      DigitsValueOfNatToString(-n);
      assert IntToString(n)[1..] == NatToString(-n);
    } else {
      DigitsValueOfNatToString(n);
      assert IsDigit(NatToString(n)[0]);
    }
  }
}
