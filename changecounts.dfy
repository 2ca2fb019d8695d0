/** The parse loop of `analyzeRepo` as a fold of `ParseLine` over the lines:
    `fileChangeCounts[p] += 1` for every accepted line with path `p`. */
module ChangeCounts {
  import opened Sums
  import opened Numstat

  /** Go's `m[k]` on a map of ints: the zero value for a missing key. */
  function Get(m: map<string, int>, k: string): int {
    if k in m then m[k] else 0
  }

  /** One iteration of the parse loop on `fileChangeCounts`. */
  function Step(counts: map<string, int>, line: string): (m: map<string, int>)
    ensures ParseLine(line).Skip? ==> m == counts
    ensures ParseLine(line).Record? ==>
      var p := ParseLine(line).path;
      m.Keys == counts.Keys + {p} && m[p] == Get(counts, p) + 1 &&
      forall k :: k in counts && k != p ==> m[k] == counts[k]
  {
    Apply(counts, ParseLine(line))
  }

  /** What one outcome does to the counts. */
  function Apply(counts: map<string, int>, outcome: LineOutcome): (m: map<string, int>)
    ensures outcome.Skip? ==> m == counts
    ensures outcome.Record? ==> m == counts[outcome.path := Get(counts, outcome.path) + 1]
  {
    if outcome.Record? then
      counts[outcome.path := Get(counts, outcome.path) + ChangeAmount(outcome.added, outcome.deleted)]
    else counts
  }

  /** Unfolds `Step` on an accepted line (kept apart: the solver does not find
      this in the loop's context on its own). */
  lemma StepOnRecord(counts: map<string, int>, line: string)
    requires ParseLine(line).Record?
    ensures Step(counts, line) == counts[ParseLine(line).path := Get(counts, ParseLine(line).path) + 1]
  {
  }

  /** `fileChangeCounts` after the loop has consumed `lines`, in order. */
  function Tally(lines: seq<string>): (r: map<string, int>)
    ensures forall k :: k in r ==> r[k] >= 1
  {
    if lines == [] then map[] else Step(Tally(lines[..|lines| - 1]), lines[|lines| - 1])
  }

  /** Reference count: how many of `lines` are accepted with path `k`. */
  function Occurrences(lines: seq<string>, k: string): nat
  {
    if lines == [] then 0
    else
      var r := ParseLine(lines[|lines| - 1]);
      Occurrences(lines[..|lines| - 1], k) + (if r.Record? && r.path == k then 1 else 0)
  }

  /** How many of `lines` are accepted at all. */
  function Accepted(lines: seq<string>): nat
  {
    if lines == [] then 0
    else Accepted(lines[..|lines| - 1]) + (if ParseLine(lines[|lines| - 1]).Record? then 1 else 0)
  }

  /** Every key's count is exactly the number of lines accepted with that path,
      and the keys are exactly the paths of accepted lines. */
  lemma {:induction false} TallyCountsOccurrences(lines: seq<string>)
    ensures forall k :: k in Tally(lines) <==> Occurrences(lines, k) > 0
    ensures forall k :: k in Tally(lines) ==> Tally(lines)[k] == Occurrences(lines, k)
    decreases |lines|
  {
    if lines != [] {
      TallyCountsOccurrences(lines[..|lines| - 1]);
    }
  }

  /** Every recorded count is at least 1 and every key is a normalised path. */
  lemma TallyKeysAndCounts(lines: seq<string>)
    ensures forall k :: k in Tally(lines) ==> Tally(lines)[k] >= 1 && IsRecordedKey(k)
  {
    TallyCountsOccurrences(lines);
    forall k | k in Tally(lines) ensures IsRecordedKey(k) {
      OccurrenceIsRecorded(lines, k);
    }
  }

  lemma {:induction false} OccurrenceIsRecorded(lines: seq<string>, k: string)
    requires Occurrences(lines, k) > 0
    ensures IsRecordedKey(k)
    decreases |lines|
  {
    var r := ParseLine(lines[|lines| - 1]);
    if !(r.Record? && r.path == k) {
      OccurrenceIsRecorded(lines[..|lines| - 1], k);
    }
  }

  /** Counting one more occurrence of `p` adds 1 to the sum. */
  lemma MapSumBump(m: map<string, int>, p: string)
    ensures MapSum(m[p := Get(m, p) + 1]) == MapSum(m) + 1
  {
    if p in m {
      MapSumUpdate(m, p, m[p] + 1);
    } else {
      MapSumAdd(m, p, 1);
    }
  }

  /** One line adds 1 to the sum when it is accepted and nothing otherwise. */
  lemma ApplySum(counts: map<string, int>, outcome: LineOutcome)
    ensures MapSum(Apply(counts, outcome)) == MapSum(counts) + (if outcome.Record? then 1 else 0)
  {
    if outcome.Record? {
      var p := outcome.path;
      MapSumBump(counts, p);
      assert Apply(counts, outcome) == counts[p := Get(counts, p) + 1];
    }
  }

  /** The counts add up to the number of accepted lines. */
  lemma {:induction false} TallySum(lines: seq<string>)
    ensures MapSum(Tally(lines)) == Accepted(lines)
    decreases |lines|
  {
    if lines != [] {
      TallySum(lines[..|lines| - 1]);
      ApplySum(Tally(lines[..|lines| - 1]), ParseLine(lines[|lines| - 1]));
    }
  }
}

/** The parse loop itself, line by line over `fileChangeCounts`. */
module ParseLoop {
  import opened Sums
  import opened Numstat
  import opened ChangeCounts

  /** The body of the parse loop for one line: `fileChangeCounts[p] += 1` when
      the line is accepted with path `p`, nothing otherwise. */
  method CountLine(fileChangeCounts: map<string, int>, line: string) returns (counts: map<string, int>)
    ensures counts == Step(fileChangeCounts, line)
  {
    if ParseLine(line).Record? {
      StepOnRecord(fileChangeCounts, line);
      var changeAmount := ChangeAmount(ParseLine(line).added, ParseLine(line).deleted);
      counts := fileChangeCounts[ParseLine(line).path := Get(fileChangeCounts, ParseLine(line).path) + changeAmount];
    } else {
      counts := fileChangeCounts;
    }
  }

  /** The parse loop of `analyzeRepo`, on lines already split by the scanner. */
  method CountChanges(lines: seq<string>) returns (fileChangeCounts: map<string, int>)
    ensures fileChangeCounts == Tally(lines)
    ensures forall k :: k in fileChangeCounts <==> Occurrences(lines, k) > 0
    ensures forall k :: k in fileChangeCounts ==> fileChangeCounts[k] == Occurrences(lines, k)
    ensures MapSum(fileChangeCounts) == Accepted(lines)
  {
    fileChangeCounts := map[];
    var i := 0;
    while i < |lines|
      invariant 0 <= i <= |lines|
      invariant fileChangeCounts == Tally(lines[..i])
    {
      fileChangeCounts := CountLine(fileChangeCounts, lines[i]);
      assert lines[..i + 1][..i] == lines[..i];
      i := i + 1;
    }
    assert lines[..i] == lines;
    TallyCountsOccurrences(lines);
    TallySum(lines);
  }
}
