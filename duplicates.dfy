/**
  * The duplicate-code checker (scripts/check_duplicates.js): count every
  * non-empty IATA and ICAO code in one pass over the dataset, list the codes
  * counted more than once (at most ten per family), and exit with 1 when any
  * code is duplicated, 0 otherwise. Console calls are returned as lines.
  */
module DuplicateCheck {
  import opened Records
  import opened Text

  /** `if (airport.iata)`: the property is present and a non-empty string. */
  predicate IsTruthy(f: Field) {
    f.Str? && f.value != ""
  }

  /**
    * A counts object as `Object.entries` sees it: the count of each key, and
    * the keys in the order they were first added.
    */
  datatype Tally = Tally(counts: map<string, nat>, keys: seq<string>)

  /** One entry `[code, count]` of `Object.entries(counts)`. */
  datatype Entry = Entry(code: string, count: nat)

  /** The non-empty codes of the family `k`, each once, in order of first appearance. */
  function CodesInOrder(data: seq<Airport>, k: Key): (keys: seq<string>)
    ensures forall i, j :: 0 <= i < j < |keys| ==> keys[i] != keys[j]
    ensures forall c :: c in keys <==> c != "" && |Select(data, k, c)| > 0
  {
    if data == [] then []
    else
      var init, f := data[..|data| - 1], FieldOf(data[|data| - 1], k);
      var prev := CodesInOrder(init, k);
      assert forall c :: |Select(data, k, c)| > 0 <==> |Select(init, k, c)| > 0 || f == Str(c);
      if IsTruthy(f) && f.value !in prev then prev + [f.value] else prev
  }

  /**
    * What the counting loop leaves in `iataCounts` (or `icaoCounts`): a key
    * for each non-empty code, added in order of first appearance, mapped to
    * the number of records carrying that code.
    */
  ghost predicate IsTallyOf(t: Tally, data: seq<Airport>, k: Key) {
    && t.keys == CodesInOrder(data, k)
    && (forall c :: c in t.counts <==> c in t.keys)
    && (forall c :: c in t.counts ==> t.counts[c] == |Select(data, k, c)|)
  }

  /** `counts[code] = (counts[code] || 0) + 1`: a new key goes to the end of the key order. */
  function Increment(t: Tally, code: string): (r: Tally)
    ensures r.counts.Keys == t.counts.Keys + {code}
    ensures r.counts[code] == (if code in t.counts then t.counts[code] else 0) + 1
    ensures forall c :: c in t.counts && c != code ==> r.counts[c] == t.counts[c]
    ensures r.keys == if code in t.counts then t.keys else t.keys + [code]
  {
    if code in t.counts then Tally(t.counts[code := t.counts[code] + 1], t.keys)
    else Tally(t.counts[code := 1], t.keys + [code])
  }

  /** The tally after visiting one record: its code is counted when it is truthy. */
  function Counted(t: Tally, a: Airport, k: Key): (r: Tally)
    ensures forall c :: c in r.counts <==> c in t.counts || (c != "" && Has(a, k, c))
    ensures forall c :: c in r.counts ==>
      r.counts[c] == (if c in t.counts then t.counts[c] else 0) + (if c != "" && Has(a, k, c) then 1 else 0)
  {
    if IsTruthy(FieldOf(a, k)) then Increment(t, FieldOf(a, k).value) else t
  }

  /** The counts object after the loop has visited every record of `data`, in order. */
  function TallyOf(data: seq<Airport>, k: Key): (t: Tally)
    ensures forall c :: c in t.keys <==> c in t.counts
  {
    if data == [] then Tally(map[], [])
    else Counted(TallyOf(data[..|data| - 1], k), data[|data| - 1], k)
  }

  /** Counting record by record gives the exact tally: each non-empty code, its number of records, first-seen order. */
  lemma {:induction false} TallyOfIsExact(data: seq<Airport>, k: Key)
    ensures IsTallyOf(TallyOf(data, k), data, k)
  {
    if data != [] {
      var init := data[..|data| - 1];
      TallyOfIsExact(init, k);
      TallyStep(TallyOf(init, k), init, data[|data| - 1], k);
      assert data == init + [data[|data| - 1]];
    }
  }

  /** `if (airport.iata)` skips missing and empty codes: the empty string is never counted. */
  lemma EmptyCodeNeverCounted(data: seq<Airport>, k: Key)
    ensures "" !in TallyOf(data, k).counts
  {
    TallyOfIsExact(data, k);
  }

  /** Visiting one more record keeps the tally exact. */
  lemma TallyStep(t: Tally, data: seq<Airport>, a: Airport, k: Key)
    requires IsTallyOf(t, data, k)
    ensures IsTallyOf(Counted(t, a, k), data + [a], k)
  {
    var t' := Counted(t, a, k);
    KeysStep(t, data, a, k);
    CountsStep(t, data, a, k);
    assert forall c :: c in t'.counts <==> c in t'.keys;
  }

  lemma KeysStep(t: Tally, data: seq<Airport>, a: Airport, k: Key)
    requires IsTallyOf(t, data, k)
    ensures (if IsTruthy(FieldOf(a, k)) then Increment(t, FieldOf(a, k).value) else t).keys == CodesInOrder(data + [a], k)
  {
    var data' := data + [a];
    assert data'[..|data'| - 1] == data;
  }

  lemma CountsStep(t: Tally, data: seq<Airport>, a: Airport, k: Key)
    requires IsTallyOf(t, data, k)
    ensures var t' := if IsTruthy(FieldOf(a, k)) then Increment(t, FieldOf(a, k).value) else t;
      forall c :: c in t'.counts ==> t'.counts[c] == |Select(data + [a], k, c)|
  {
    var t' := if IsTruthy(FieldOf(a, k)) then Increment(t, FieldOf(a, k).value) else t;
    forall c | c in t'.counts
      ensures t'.counts[c] == |Select(data + [a], k, c)|
    {
      SelectSnoc(data, a, k, c);
    }
  }

  /**
    * The `forEach` loop: one pass over the records, counting each non-empty
    * IATA code and, independently, each non-empty ICAO code.
    */
  method CountCodes(airports: seq<Airport>) returns (iataCounts: Tally, icaoCounts: Tally)
    ensures iataCounts == TallyOf(airports, Iata) && icaoCounts == TallyOf(airports, Icao)
  {
    iataCounts, icaoCounts := Tally(map[], []), Tally(map[], []);
    var i := 0;
    while i < |airports|
      invariant 0 <= i <= |airports|
      invariant iataCounts == TallyOf(airports[..i], Iata)
      invariant icaoCounts == TallyOf(airports[..i], Icao)
    {
      var airport := airports[i];
      assert airports[..i + 1][..i] == airports[..i];
      if IsTruthy(airport.iata) {
        iataCounts := Increment(iataCounts, airport.iata.value);
      }
      if IsTruthy(airport.icao) {
        icaoCounts := Increment(icaoCounts, airport.icao.value);
      }
      i := i + 1;
    }
    assert airports[..i] == airports;
  }

  /** `Object.entries(counts).filter(([code, count]) => count > 1)`, in key order. */
  function Duplicates(counts: map<string, nat>, keys: seq<string>): (dups: seq<Entry>)
    requires forall c :: c in keys ==> c in counts
    ensures |dups| <= |keys|
    ensures forall e :: e in dups ==> e.code in keys && e.count == counts[e.code] && e.count > 1
    ensures forall c :: c in keys && counts[c] > 1 ==> Entry(c, counts[c]) in dups
  {
    if keys == [] then []
    else
      var init, c := keys[..|keys| - 1], keys[|keys| - 1];
      assert keys == init + [c];
      Duplicates(counts, init) + (if counts[c] > 1 then [Entry(c, counts[c])] else [])
  }

  /** The code is counted more than once. */
  predicate IsDuplicate(counts: map<string, nat>, c: string) {
    c in counts && counts[c] > 1
  }

  /** The positions in `keys` of the codes counted more than once, ascending: the reference for `Duplicates`. */
  function DuplicateIndices(counts: map<string, nat>, keys: seq<string>): (idx: seq<nat>)
    ensures forall j :: 0 <= j < |idx| ==> idx[j] < |keys| && IsDuplicate(counts, keys[idx[j]])
    ensures forall j, j' :: 0 <= j < j' < |idx| ==> idx[j] < idx[j']
    ensures forall i :: 0 <= i < |keys| && IsDuplicate(counts, keys[i]) ==> i in idx
  {
    if keys == [] then []
    else
      var init := keys[..|keys| - 1];
      DuplicateIndices(counts, init) + (if IsDuplicate(counts, keys[|keys| - 1]) then [|keys| - 1] else [])
  }

  /** `dups` holds the entries of `keys` at the positions `idx`, one by one. */
  ghost predicate EntriesAt(dups: seq<Entry>, idx: seq<nat>, counts: map<string, nat>, keys: seq<string>) {
    |dups| == |idx| && forall j :: 0 <= j < |idx| ==>
      idx[j] < |keys| && keys[idx[j]] in counts && dups[j] == Entry(keys[idx[j]], counts[keys[idx[j]]])
  }

  /** Appending a key, and its entry when it is selected, keeps the entries aligned with their positions. */
  lemma EntriesAtSnoc(dups: seq<Entry>, idx: seq<nat>, counts: map<string, nat>, init: seq<string>, c: string, dup: bool)
    requires EntriesAt(dups, idx, counts, init) && c in counts
    ensures EntriesAt(dups + (if dup then [Entry(c, counts[c])] else []), idx + (if dup then [|init|] else []),
      counts, init + [c])
  {
    var keys := init + [c];
    forall j | 0 <= j < |idx|
      ensures keys[idx[j]] == init[idx[j]]
    {
    }
  }

  /** The duplicate list is the entries at the duplicate positions, in key order. */
  lemma {:induction false} DuplicatesIsOrderedFilter(counts: map<string, nat>, keys: seq<string>)
    requires forall c :: c in keys ==> c in counts
    ensures EntriesAt(Duplicates(counts, keys), DuplicateIndices(counts, keys), counts, keys)
  {
    if keys != [] {
      var init, c := keys[..|keys| - 1], keys[|keys| - 1];
      assert keys == init + [c];
      assert forall c :: c in init ==> c in keys;
      DuplicatesIsOrderedFilter(counts, init);
      EntriesAtSnoc(Duplicates(counts, init), DuplicateIndices(counts, init), counts, init, c, IsDuplicate(counts, c));
    }
  }

  /** With distinct keys, as `Object.entries` has, no code is listed twice. */
  lemma DuplicatesAreDistinct(counts: map<string, nat>, keys: seq<string>)
    requires forall c :: c in keys ==> c in counts
    requires forall i, j :: 0 <= i < j < |keys| ==> keys[i] != keys[j]
    ensures var dups := Duplicates(counts, keys);
      forall i, j :: 0 <= i < j < |dups| ==> dups[i].code != dups[j].code
  {
    DuplicatesIsOrderedFilter(counts, keys);
    var dups, idx := Duplicates(counts, keys), DuplicateIndices(counts, keys);
    forall i, j | 0 <= i < j < |dups|
      ensures dups[i].code != dups[j].code
    {
      assert idx[i] < idx[j];
    }
  }

  /** Two distinct records carry the same non-empty code of the family `k`. */
  ghost predicate HasDuplicateCode(data: seq<Airport>, k: Key) {
    exists i, j :: 0 <= i < j < |data| && IsTruthy(FieldOf(data[i], k)) && FieldOf(data[i], k) == FieldOf(data[j], k)
  }

  /** The duplicate list of an exact tally is non-empty exactly when some code is carried twice. */
  lemma DuplicatesIffRepeatedCode(t: Tally, data: seq<Airport>, k: Key)
    requires IsTallyOf(t, data, k)
    ensures Duplicates(t.counts, t.keys) != [] <==> HasDuplicateCode(data, k)
  {
    var dups := Duplicates(t.counts, t.keys);
    if dups != [] {
      var c := dups[0].code;
      assert dups[0] in dups;
      var i, j := RepeatedHasTwoRecords(data, k, c);
      assert IsTruthy(FieldOf(data[i], k)) && FieldOf(data[i], k) == FieldOf(data[j], k);
    }
    if HasDuplicateCode(data, k) {
      var i, j :| 0 <= i < j < |data| && IsTruthy(FieldOf(data[i], k)) && FieldOf(data[i], k) == FieldOf(data[j], k);
      var c := FieldOf(data[i], k).value;
      TwoRecordsRepeat(data, k, c, i, j);
      assert c in t.keys;
      assert Entry(c, t.counts[c]) in dups;
    }
  }

  /** The counting loop reports a duplicate exactly when two records carry the same non-empty code. */
  lemma CountedDuplicatesIffRepeatedCode(data: seq<Airport>, k: Key)
    ensures var t := TallyOf(data, k);
      Duplicates(t.counts, t.keys) != [] <==> HasDuplicateCode(data, k)
  {
    TallyOfIsExact(data, k);
    DuplicatesIffRepeatedCode(TallyOf(data, k), data, k);
  }

  /** At most this many duplicates are listed per code family. */
  const ListLimit: nat := 10

  /** The line that stands for the entries left unlisted. */
  predicate IsMoreLine(s: string) {
    |s| >= 11 && s[..11] == "   ... and "
  }

  /** `   - ${code}: appears ${count} times`: the code follows the dash, and the line never reads as a "more" line. */
  function ItemLine(e: Entry): (line: string)
    ensures |line| > 5 + |e.code| && line[..5] == "   - " && line[5..5 + |e.code|] == e.code
    ensures !IsMoreLine(line)
  {
    var line := "   - " + e.code + ": appears " + NatToString(e.count) + " times";
    assert line[3] == '-';
    line
  }

  /** The digits between ": appears " and " times" in an entry line read back as the entry's count. */
  lemma ItemLineCount(e: Entry)
    ensures var line, c := ItemLine(e), |e.code|;
      && |line| > 21 + c
      && line[5 + c..15 + c] == ": appears " && line[|line| - 6..] == " times"
      && (forall i :: 15 + c <= i < |line| - 6 ==> IsDigit(line[i]))
      && DecimalValue(line[15 + c..|line| - 6]) == e.count
  {
    var digits, line := NatToString(e.count), ItemLine(e);
    assert line == "   - " + e.code + ": appears " + digits + " times";
    assert line[15 + |e.code|..|line| - 6] == digits;
    NatToStringRoundTrip(e.count);
  }

  /** `   ... and ${hidden} more`: the digits between the prefix and " more" read back as `hidden`. */
  function MoreLine(hidden: nat): (line: string)
    ensures IsMoreLine(line) && |line| > 16 && line[|line| - 5..] == " more"
    ensures forall i :: 11 <= i < |line| - 5 ==> IsDigit(line[i])
    ensures DecimalValue(line[11..|line| - 5]) == hidden
  {
    var digits := NatToString(hidden);
    var line := "   ... and " + digits + " more";
    assert line[11..|line| - 5] == digits;
    NatToStringRoundTrip(hidden);
    line
  }

  /** One error line per listed entry, none of which reads as a "more" line. */
  function ItemLines(shown: seq<Entry>): (items: seq<Line>)
    ensures |items| == |shown|
    ensures forall j :: 0 <= j < |shown| ==> items[j] == Err(ItemLine(shown[j])) && !IsMoreLine(items[j].text)
  {
    seq(|shown|, j requires 0 <= j < |shown| => Err(ItemLine(shown[j])))
  }

  /** The "... and N more" line, present only when more than ten entries exist. */
  function MoreLines(n: nat): (more: seq<Line>)
    ensures |more| == if n > ListLimit then 1 else 0
    ensures n > ListLimit ==> more[0] == Err(MoreLine(n - ListLimit))
  {
    if n > ListLimit then [Err(MoreLine(n - ListLimit))] else []
  }

  /**
    * The error report for a non-empty duplicate list: a count line, the
    * first ten entries, and an "... and N more" line for the rest.
    */
  function DuplicateReport(family: string, dups: seq<Entry>): (lines: seq<Line>)
    requires |dups| > 0
    ensures |lines| == 1 + Min(|dups|, ListLimit) + (if |dups| > ListLimit then 1 else 0)
    ensures lines[0] == Err("\U{274C} Found " + NatToString(|dups|) + " duplicate " + family + " codes:")
    ensures forall j :: 0 <= j < Min(|dups|, ListLimit) ==> lines[1 + j] == Err(ItemLine(dups[j]))
    ensures |dups| > ListLimit ==> lines[|lines| - 1] == Err(MoreLine(|dups| - ListLimit))
    ensures |dups| <= ListLimit ==> !IsMoreLine(lines[|lines| - 1].text)
    ensures forall j :: 0 <= j < |lines| ==> lines[j].Err?
  {
    var head := [Err("\U{274C} Found " + NatToString(|dups|) + " duplicate " + family + " codes:")];
    var items := ItemLines(dups[..Min(|dups|, ListLimit)]);
    var more := MoreLines(|dups|);
    assert forall j :: 0 <= j < |more| ==> more[j].Err?;
    head + items + more
  }

  /** The summary and result lines for one code family (IATA or ICAO). */
  function FamilyReport(leading: string, family: string, t: Tally, dups: seq<Entry>): (lines: seq<Line>)
    ensures |lines| >= 2
    ensures lines[0] == Out(leading + "\U{1F4CA} " + family + " Codes: " + NatToString(|t.counts|) + " unique codes checked")
    ensures |dups| == 0 <==> lines == [lines[0], Out("\U{2705} No duplicate " + family + " codes found")]
    ensures |dups| > 0 ==> forall j :: 1 <= j < |lines| ==> lines[j].Err?
    ensures |dups| > 0 ==> lines[1..] == DuplicateReport(family, dups)
  {
    var summary := Out(leading + "\U{1F4CA} " + family + " Codes: " + NatToString(|t.counts|) + " unique codes checked");
    if |dups| > 0 then
      var report := DuplicateReport(family, dups);
      var lines := [summary] + report;
      assert lines[1..] == report && lines[1].Err?;
      lines
    else [summary, Out("\U{2705} No duplicate " + family + " codes found")]
  }

  const Banner := "\U{1F50D} Checking for duplicate airport codes...\n"
  const Rule := "\n" + seq(50, _ => '=')
  const FailedLines := [Err("\U{274C} VALIDATION FAILED: Duplicate airport codes detected!"),
                        Err("Please fix the duplicates before proceeding.\n")]
  const PassedLine := Out("\U{2705} VALIDATION PASSED: No duplicate codes found!\n")

  /**
    * The whole script on an unpacked dataset: the console lines it writes and
    * its exit status, 1 exactly when some non-empty IATA or ICAO code is
    * carried by two records.
    */
  method CheckDuplicates(airports: seq<Airport>) returns (output: seq<Line>, exitCode: int)
    ensures exitCode == 0 || exitCode == 1
    ensures |output| >= 5
    ensures exitCode == 1 <==> HasDuplicateCode(airports, Iata) || HasDuplicateCode(airports, Icao)
    ensures output[0] == Out(Banner)
    ensures exitCode == 1 ==> output[|output| - 2..] == FailedLines
    ensures exitCode == 0 ==> output[|output| - 1] == PassedLine
    ensures var iata, icao := TallyOf(airports, Iata), TallyOf(airports, Icao);
      output == [Out(Banner)]
        + FamilyReport("", "IATA", iata, Duplicates(iata.counts, iata.keys))
        + FamilyReport("\n", "ICAO", icao, Duplicates(icao.counts, icao.keys))
        + [Out(Rule)]
        + (if exitCode == 1 then FailedLines else [PassedLine])
  {
    output := [Out(Banner)];
    var iataCounts, icaoCounts := CountCodes(airports);
    var duplicateIata := Duplicates(iataCounts.counts, iataCounts.keys);
    var duplicateIcao := Duplicates(icaoCounts.counts, icaoCounts.keys);
    CountedDuplicatesIffRepeatedCode(airports, Iata);
    CountedDuplicatesIffRepeatedCode(airports, Icao);

    var hasErrors := false;
    output := output + FamilyReport("", "IATA", iataCounts, duplicateIata);
    assert output[0] == Out(Banner) && |output| >= 3;
    if |duplicateIata| > 0 {
      hasErrors := true;
    }
    output := output + FamilyReport("\n", "ICAO", icaoCounts, duplicateIcao);
    assert output[0] == Out(Banner) && |output| >= 5;
    if |duplicateIcao| > 0 {
      hasErrors := true;
    }

    output := output + [Out(Rule)];
    assert output[0] == Out(Banner) && |output| >= 6;
    ghost var before := output;
    if hasErrors {
      output := output + FailedLines;
      exitCode := 1;
      assert output[|output| - 2..] == FailedLines;
    } else {
      output := output + [PassedLine];
      exitCode := 0;
    }
    assert output[0] == before[0];
  }
}
