/** The lexicon pass: each line `word,transcription,POS` is split into its
    fields, the transcription into syllables, the stressed syllable is found
    and classified, and a 31-column row is assembled; words stressed before
    the antepenult are set aside. */
module Record {
  import opened Failures
  import opened Strings
  import opened Syllable

  /** One cell of an output row: a count or a piece of text. */
  datatype Cell = Num(n: int) | Text(s: string)

  /** The column names of the output file, in order. */
  const Header: seq<string> := [
    "word", "pronunciation", "nSyls", "stressSylNum", "stressLoc",
    "nOnsetConsAntepen", "nCodaConsAntepen", "onsetConsAntepen", "codaConsAntepen", "VAntepen",
    "nOnsetConsPen", "nCodaConsPen", "onsetConsPen", "codaConsPen", "VPen",
    "nOnsetConsFinal", "nCodaConsFinal", "onsetConsFinal", "codaConsFinal", "VFinal",
    "nOnsetConsStressed", "nCodaConsStressed", "onsetConsStressed", "codaConsStressed", "VStressed",
    "nOnsetConsAlt", "nCodaConsAlt", "onsetConsAlt", "codaConsAlt", "VAlt", "POS"]

  /** The header as a row of text cells. */
  function HeaderRow(): (row: seq<Cell>)
    ensures |row| == |Header|
    ensures forall i :: 0 <= i < |row| ==> row[i] == Text(Header[i])
  {
    seq(|Header|, i requires 0 <= i < |Header| => Text(Header[i]))
  }

  /** The five cells of one syllable group. */
  function InfoCells(info: Info): (cells: seq<Cell>)
    ensures |cells| == 5
    ensures info.Info? ==> cells[0].Num?
    ensures info.NA? <==> forall i :: 0 <= i < 5 ==> cells[i] == Text("NA")
    ensures info.Info? ==>
      cells == [Num(info.nOnsetCons), Num(info.nCodaCons), Text(info.onsetCons), Text(info.codaCons), Text(info.v)]
  {
    match info
    case NA => [Text("NA"), Text("NA"), Text("NA"), Text("NA"), Text("NA")]
    case Info(nOnsetCons, nCodaCons, onsetCons, codaCons, v) =>
      [Num(nOnsetCons), Num(nCodaCons), Text(onsetCons), Text(codaCons), Text(v)]
  }

  /** The row written for a word. */
  function Row(word: string, pron: string, nSyls: nat, stressSylNum: nat, stressLoc: string,
               ante: Info, pen: Info, fin: Info, stressed: Info, alt: Info, pos: string): (row: seq<Cell>)
    ensures |row| == |Header|
    ensures row[0] == Text(word) && row[1] == Text(pron) && row[2] == Num(nSyls)
    ensures row[3] == Num(stressSylNum) && row[4] == Text(stressLoc) && row[30] == Text(pos)
    ensures row[5..10] == InfoCells(ante) && row[10..15] == InfoCells(pen) && row[15..20] == InfoCells(fin)
    ensures row[20..25] == InfoCells(stressed) && row[25..30] == InfoCells(alt)
  {
    [Text(word), Text(pron), Num(nSyls), Num(stressSylNum), Text(stressLoc)]
      + InfoCells(ante) + InfoCells(pen) + InfoCells(fin) + InfoCells(stressed) + InfoCells(alt)
      + [Text(pos)]
  }

  /** The comma-separated fields of a line, trailing whitespace removed first. */
  function Fields(l: string): seq<string>
  {
    Split(RStrip(l), ',')
  }

  /** The fields joined back with commas give the line without its trailing whitespace. */
  lemma FieldsRejoin(l: string)
    ensures |Fields(l)| >= 1 && JoinWith(Fields(l), ',') == RStrip(l)
    ensures forall i :: 0 <= i < |Fields(l)| ==> ',' !in Fields(l)[i]
  {
    SplitJoin(RStrip(l), ',');
  }

  /** The positions of the syllables that contain a stress mark, in increasing order. */
  function StressedPositions(syls: seq<string>): (inds: seq<nat>)
    ensures |inds| <= |syls|
    ensures forall k :: 0 <= k < |inds| ==> inds[k] < |syls| && '\'' in syls[inds[k]]
    ensures forall k, l :: 0 <= k < l < |inds| ==> inds[k] < inds[l]
    ensures forall i :: 0 <= i < |syls| && '\'' in syls[i] ==> i in inds
  {
    if |syls| == 0 then []
    else StressedPositions(syls[..|syls| - 1]) + (if '\'' in syls[|syls| - 1] then [|syls| - 1] else [])
  }

  /** The stress location of a word of `n` syllables whose stressed syllable
      has 0-based index `k`: only the last three syllables qualify. */
  function Classify(k: nat, n: nat): (loc: Option<Role>)
    ensures loc.Some? ==> k + FromEnd(loc.value) == n
    ensures loc.None? <==> k + 1 != n && k + 2 != n && k + 3 != n
  {
    if k + 1 == n then Some(Final)
    else if k + 2 == n then Some(Penult)
    else if k + 3 == n then Some(Antepenult)
    else None
  }

  /** The syllable compared with the stressed one. */
  function AltRole(role: Role): Role
  {
    match role
    case Final => Penult
    case Penult => Final
    case Antepenult => Penult
  }

  /** The result among the three computed that belongs to `role`. */
  function Pick(role: Role, ante: Info, pen: Info, fin: Info): Info
  {
    match role
    case Antepenult => ante
    case Penult => pen
    case Final => fin
  }

  /** What one line turns into: a row, or a word set aside for its stress position. */
  datatype LineResult = Written(row: seq<Cell>) | Skipped(word: string, pron: string)

  /** One pass of the main loop over a line. */
  function RecordOutcome(l: string): Result<LineResult>
  {
    var entries := Fields(l);
    if |entries| != 3 then Err(FieldCount(|entries|))
    else
      var word, pron, pos := entries[0], entries[1], entries[2];
      var syls := Split(pron, '-');
      var stressedSyls := StressedPositions(syls);
      if |stressedSyls| != 1 then Err(StressMarkCount(|stressedSyls|))
      else
        var ante :- InfoAt(syls, "antepenult");
        var pen :- InfoAt(syls, "penult");
        var fin :- InfoAt(syls, "final");
        Ok(Placed(word, pron, syls, stressedSyls[0], ante, pen, fin, pos))
  }

  /** The outcome for a word whose stressed syllable has index `k` and whose
      last three syllables are described by `ante`, `pen` and `fin`. */
  function Placed(word: string, pron: string, syls: seq<string>, k: nat,
                  ante: Info, pen: Info, fin: Info, pos: string): LineResult
  {
    match Classify(k, |syls|)
    case None => Skipped(word, pron)
    case Some(loc) =>
      var alt := if loc == Final && |syls| <= 1 then NA else Pick(AltRole(loc), ante, pen, fin);
      Written(Row(word, pron, |syls|, k + 1, RoleName(loc), ante, pen, fin, Pick(loc, ante, pen, fin), alt, pos))
  }

  /** The main loop body as the script runs it. */
  method ProcessRecord(l: string) returns (r: Result<LineResult>)
    ensures r == RecordOutcome(l)
  {
    var entries := Split(RStrip(l), ',');
    if |entries| != 3 {
      return Err(FieldCount(|entries|));
    }
    var word, pron := entries[0], entries[1];
    var pos := entries[2];
    var syls := Split(pron, '-');
    var nSyls := |syls|;
    var stressedSyls := StressedPositions(syls);
    if |stressedSyls| != 1 {
      return Err(StressMarkCount(|stressedSyls|));
    }
    var stressSylNum := stressedSyls[0] + 1;
    var ante := SyllInfo(syls, "antepenult");
    if ante.Err? {
      return Err(ante.error);
    }
    var pen := SyllInfo(syls, "penult");
    if pen.Err? {
      return Err(pen.error);
    }
    var fin := SyllInfo(syls, "final");
    if fin.Err? {
      return Err(fin.error);
    }
    var placed := PlaceStress(word, pron, syls, stressSylNum, ante.value, pen.value, fin.value, pos);
    return Ok(placed);
  }

  /** The stress classification chain of the main loop: pick the stressed
      and alternative syllables, or set the word aside. */
  method PlaceStress(word: string, pron: string, syls: seq<string>, stressSylNum: nat,
                     ante: Info, pen: Info, fin: Info, pos: string) returns (r: LineResult)
    requires 0 < stressSylNum
    requires InfoAt(syls, "antepenult") == Ok(ante)
    requires InfoAt(syls, "penult") == Ok(pen)
    requires InfoAt(syls, "final") == Ok(fin)
    ensures r == Placed(word, pron, syls, stressSylNum - 1, ante, pen, fin, pos)
  {
    var nSyls := |syls|;
    var stressLoc: string;
    var stressed: Result<Info>;
    var alt: Result<Info>;
    ghost var loc: Role;
    if stressSylNum == nSyls {
      stressLoc := "final";
      stressed := SyllInfo(syls, "final");
      if nSyls > 1 {
        alt := SyllInfo(syls, "penult");
      } else {
        alt := Ok(NA);
      }
      loc := Final;
    } else if stressSylNum + 1 == nSyls {
      stressLoc := "penult";
      stressed := SyllInfo(syls, "penult");
      alt := SyllInfo(syls, "final");
      loc := Penult;
    } else if stressSylNum + 2 == nSyls {
      stressLoc := "antepenult";
      stressed := SyllInfo(syls, "antepenult");
      alt := SyllInfo(syls, "penult");
      loc := Antepenult;
    } else {
      return Skipped(word, pron);
    }
    assert Classify(stressSylNum - 1, nSyls) == Some(loc);
    assert stressLoc == RoleName(loc);
    assert stressed == Ok(Pick(loc, ante, pen, fin));
    assert alt == Ok(if loc == Final && nSyls <= 1 then NA else Pick(AltRole(loc), ante, pen, fin));
    r := Written(Row(word, pron, nSyls, stressSylNum, stressLoc,
                     ante, pen, fin, stressed.value, alt.value, pos));
  }

  /** The state of the output after a run: the rows written (header first),
      the words set aside, and the failure that stopped the run, if any. */
  datatype Report = Report(rows: seq<seq<Cell>>, badStressWords: seq<(string, string)>, failure: Option<Error>)

  /** The output after one more line with outcome `outcome`: a failed run
      stays as it is, a failure stops it, a row is appended or the word set aside. */
  function Advance(prev: Report, outcome: Result<LineResult>): Report
  {
    if prev.failure.Some? then prev
    else
      match outcome
      case Err(e) => Report(prev.rows, prev.badStressWords, Some(e))
      case Ok(Written(row)) => Report(prev.rows + [row], prev.badStressWords, None)
      case Ok(Skipped(word, pron)) => Report(prev.rows, prev.badStressWords + [(word, pron)], None)
  }

  /** The output after a sequence of line outcomes, starting from the header alone. */
  function RunOutcomes(outcomes: seq<Result<LineResult>>): Report
  {
    if |outcomes| == 0 then Report([HeaderRow()], [], None)
    else Advance(RunOutcomes(outcomes[..|outcomes| - 1]), outcomes[|outcomes| - 1])
  }

  /** The outcome of every line, in order. */
  function Outcomes(lines: seq<string>): (outcomes: seq<Result<LineResult>>)
    ensures |outcomes| == |lines|
    ensures forall i :: 0 <= i < |lines| ==> outcomes[i] == RecordOutcome(lines[i])
  {
    seq(|lines|, i requires 0 <= i < |lines| => RecordOutcome(lines[i]))
  }

  /** The whole lexicon pass: lines are handled in order, and the first
      failing line stops the run with everything before it kept. */
  function Run(lines: seq<string>): Report
  {
    RunOutcomes(Outcomes(lines))
  }

  /** The outcomes of one more line. */
  lemma OutcomesSnoc(lines: seq<string>, i: nat)
    requires i < |lines|
    ensures Outcomes(lines[..i + 1]) == Outcomes(lines[..i]) + [RecordOutcome(lines[i])]
  {
    var a, b := Outcomes(lines[..i + 1]), Outcomes(lines[..i]) + [RecordOutcome(lines[i])];
    forall j | 0 <= j < i + 1
      ensures a[j] == b[j]
    {
      assert lines[..i + 1][j] == lines[j];
    }
  }

  /** The outcomes of a whole lexicon split in two. */
  lemma OutcomesAppend(a: seq<string>, b: seq<string>)
    ensures Outcomes(a + b) == Outcomes(a) + Outcomes(b)
  {
    var x, y := Outcomes(a + b), Outcomes(a) + Outcomes(b);
    forall j | 0 <= j < |a| + |b|
      ensures x[j] == y[j]
    {
      if j < |a| {
        assert (a + b)[j] == a[j];
      } else {
        assert (a + b)[j] == b[j - |a|];
      }
    }
  }

  /** The main loop over the lexicon, as the script runs it: the header
      first, then one record per line, stopping at the first failure. */
  method ProcessLexicon(lines: seq<string>) returns (report: Report)
    ensures report == Run(lines)
  {
    var rows := [HeaderRow()];
    var badStressWords: seq<(string, string)> := [];
    ghost var outcomes: seq<Result<LineResult>> := [];
    var i := 0;
    while i < |lines|
      invariant 0 <= i <= |lines|
      invariant outcomes == Outcomes(lines[..i])
      invariant RunOutcomes(outcomes) == Report(rows, badStressWords, None)
    {
      var r := ProcessRecord(lines[i]);
      OutcomesSnoc(lines, i);
      outcomes := outcomes + [r];
      assert outcomes[..|outcomes| - 1] == outcomes[..i];
      if r.Err? {
        OutcomesAppend(lines[..i + 1], lines[i + 1..]);
        assert lines[..i + 1] + lines[i + 1..] == lines;
        StickyOutcomes(outcomes, Outcomes(lines[i + 1..]));
        return Report(rows, badStressWords, Some(r.error));
      }
      match r.value {
        case Written(row) =>
          rows := rows + [row];
        case Skipped(word, pron) =>
          badStressWords := badStressWords + [(word, pron)];
      }
      i := i + 1;
    }
    assert lines[..i] == lines;
    return Report(rows, badStressWords, None);
  }

  /** Once a line has failed, later outcomes change nothing. */
  lemma {:induction false} StickyOutcomes(outcomes: seq<Result<LineResult>>, more: seq<Result<LineResult>>)
    requires RunOutcomes(outcomes).failure.Some?
    ensures RunOutcomes(outcomes + more) == RunOutcomes(outcomes)
    decreases |more|
  {
    if |more| > 0 {
      var init := more[..|more| - 1];
      StickyOutcomes(outcomes, init);
      assert (outcomes + more)[..|outcomes + more| - 1] == outcomes + init;
    } else {
      assert outcomes + more == outcomes;
    }
  }

  /** The rows of the written outcomes, in order. */
  function WrittenRows(outcomes: seq<Result<LineResult>>): seq<seq<Cell>>
  {
    if |outcomes| == 0 then []
    else
      var last := outcomes[|outcomes| - 1];
      WrittenRows(outcomes[..|outcomes| - 1]) + (if last.Ok? && last.value.Written? then [last.value.row] else [])
  }

  /** The word and transcription of the set-aside outcomes, in order. */
  function SkippedWords(outcomes: seq<Result<LineResult>>): seq<(string, string)>
  {
    if |outcomes| == 0 then []
    else
      var last := outcomes[|outcomes| - 1];
      SkippedWords(outcomes[..|outcomes| - 1])
        + (if last.Ok? && last.value.Skipped? then [(last.value.word, last.value.pron)] else [])
  }

  /** Accounting over outcomes: no failure exactly when every outcome is a
      success, and then the rows after the header are those of the written
      outcomes and the set-aside words those of the skipped ones, in order,
      one entry per outcome. */
  lemma {:induction false} OutcomesAccounting(outcomes: seq<Result<LineResult>>)
    ensures var report := RunOutcomes(outcomes);
      && |report.rows| >= 1 && report.rows[0] == HeaderRow()
      && (report.failure.None? <==> forall i :: 0 <= i < |outcomes| ==> outcomes[i].Ok?)
      && (report.failure.None? ==> |report.rows| - 1 + |report.badStressWords| == |outcomes|)
      && (report.failure.None? ==>
            report.rows == [HeaderRow()] + WrittenRows(outcomes)
            && report.badStressWords == SkippedWords(outcomes))
    decreases |outcomes|
  {
    if |outcomes| > 0 {
      var init := outcomes[..|outcomes| - 1];
      OutcomesAccounting(init);
      forall i | 0 <= i < |init|
        ensures init[i] == outcomes[i]
      {
      }
      var prev := RunOutcomes(init);
      if prev.failure.Some? {
        var i :| 0 <= i < |init| && !init[i].Ok?;
        assert !outcomes[i].Ok?;
      }
    }
  }

  /** A run ends without failure exactly when every line is accepted; the
      output then holds the header followed by the rows of the written lines
      and the set-aside words of the skipped lines, both in input order, and
      every line is either written or set aside. */
  lemma RunAccounting(lines: seq<string>)
    ensures var report := Run(lines);
      && |report.rows| >= 1 && report.rows[0] == HeaderRow()
      && (report.failure.None? <==> forall i :: 0 <= i < |lines| ==> RecordOutcome(lines[i]).Ok?)
      && (report.failure.None? ==> |report.rows| - 1 + |report.badStressWords| == |lines|)
      && (report.failure.None? ==>
            report.rows == [HeaderRow()] + WrittenRows(Outcomes(lines))
            && report.badStressWords == SkippedWords(Outcomes(lines)))
  {
    OutcomesAccounting(Outcomes(lines));
  }

  /** Once a line has failed, later lines change nothing. */
  lemma RunSticky(lines: seq<string>, more: seq<string>)
    requires Run(lines).failure.Some?
    ensures Run(lines + more) == Run(lines)
  {
    OutcomesAppend(lines, more);
    StickyOutcomes(Outcomes(lines), Outcomes(more));
  }

  /** A failed run failed on some line: its output is what the lines before
      it produced, and the failure is that line's. */
  lemma {:induction false} OutcomesFailure(outcomes: seq<Result<LineResult>>)
    requires RunOutcomes(outcomes).failure.Some?
    ensures exists i :: (0 <= i < |outcomes| && outcomes[i].Err?
      && RunOutcomes(outcomes[..i]).failure.None?
      && RunOutcomes(outcomes) == Report(RunOutcomes(outcomes[..i]).rows,
                                         RunOutcomes(outcomes[..i]).badStressWords,
                                         Some(outcomes[i].error)))
    decreases |outcomes|
  {
    var init := outcomes[..|outcomes| - 1];
    if RunOutcomes(init).failure.Some? {
      OutcomesFailure(init);
      var i :| 0 <= i < |init| && init[i].Err?
        && RunOutcomes(init[..i]).failure.None?
        && RunOutcomes(init) == Report(RunOutcomes(init[..i]).rows,
                                       RunOutcomes(init[..i]).badStressWords,
                                       Some(init[i].error));
      assert init[..i] == outcomes[..i];
      assert outcomes[i] == init[i];
    } else {
      assert outcomes[..|outcomes| - 1] == init;
    }
  }

  /** A failed run stopped at a line that failed, with the output of the lines before it. */
  lemma RunFailure(lines: seq<string>)
    requires Run(lines).failure.Some?
    ensures exists i :: (0 <= i < |lines| && RecordOutcome(lines[i]).Err?
      && Run(lines[..i]).failure.None?
      && Run(lines) == Report(Run(lines[..i]).rows, Run(lines[..i]).badStressWords,
                              Some(RecordOutcome(lines[i]).error)))
  {
    var outcomes := Outcomes(lines);
    OutcomesFailure(outcomes);
    var i :| 0 <= i < |outcomes| && outcomes[i].Err?
      && RunOutcomes(outcomes[..i]).failure.None?
      && RunOutcomes(outcomes) == Report(RunOutcomes(outcomes[..i]).rows,
                                         RunOutcomes(outcomes[..i]).badStressWords,
                                         Some(outcomes[i].error));
    OutcomesPrefix(lines, i);
    assert outcomes[i] == RecordOutcome(lines[i]);
    assert Run(lines[..i]) == RunOutcomes(outcomes[..i]);
  }

  /** The outcomes of a prefix are a prefix of the outcomes. */
  lemma OutcomesPrefix(lines: seq<string>, i: nat)
    requires i <= |lines|
    ensures Outcomes(lines[..i]) == Outcomes(lines)[..i]
  {
    var a, b := Outcomes(lines[..i]), Outcomes(lines)[..i];
    forall j | 0 <= j < i
      ensures a[j] == b[j]
    {
      assert lines[..i][j] == lines[j];
    }
  }


  /** Opening up an accepted line: three fields, one stressed syllable, the
      three positional results, and the classification. */
  lemma AcceptedParts(l: string, result: LineResult)
    requires RecordOutcome(l) == Ok(result)
    ensures |Fields(l)| == 3
    ensures var entries := Fields(l); var syls := Split(entries[1], '-');
      var stressed := StressedPositions(syls);
      && |stressed| == 1
      && InfoAt(syls, "antepenult").Ok? && InfoAt(syls, "penult").Ok? && InfoAt(syls, "final").Ok?
      && result == Placed(entries[0], entries[1], syls, stressed[0],
                          InfoAt(syls, "antepenult").value, InfoAt(syls, "penult").value,
                          InfoAt(syls, "final").value, entries[2])
  {
  }

  /** Exactly one syllable carries the stress mark, the one `StressedPositions` reports. */
  lemma UniqueStress(syls: seq<string>)
    requires |StressedPositions(syls)| == 1
    ensures var k := StressedPositions(syls)[0];
      k < |syls| && forall i :: 0 <= i < |syls| ==> ('\'' in syls[i] <==> i == k)
  {
  }

  /** A written row: the word, transcription and part of speech are the
      line's fields, the syllable count and 1-based stressed position are
      those of the transcription, the stressed syllable is one of the last
      three, and the stressed group describes the syllable carrying the mark. */
  lemma WrittenRow(l: string, row: seq<Cell>)
    requires RecordOutcome(l) == Ok(Written(row))
    ensures |Fields(l)| == 3
    ensures var entries := Fields(l); var syls := Split(entries[1], '-');
      var stressed := StressedPositions(syls);
      && |stressed| == 1
      && (forall i :: 0 <= i < |syls| ==> ('\'' in syls[i] <==> i == stressed[0]))
      && stressed[0] < |syls| <= stressed[0] + 3
      && |row| == |Header|
      && row[0] == Text(entries[0]) && row[1] == Text(entries[1]) && row[30] == Text(entries[2])
      && row[2] == Num(|syls|) && row[3] == Num(stressed[0] + 1)
      && SyllableInfo(syls[stressed[0]]).Ok?
      && row[20..25] == InfoCells(SyllableInfo(syls[stressed[0]]).value)
  {
    AcceptedParts(l, Written(row));
    var entries := Fields(l);
    var syls := Split(entries[1], '-');
    UniqueStress(syls);
    var k := StressedPositions(syls)[0];
    var loc := Classify(k, |syls|).value;
    RoleSelection(syls, loc);
  }

  /** The stress location written names the position of the stressed syllable. */
  lemma WrittenLocation(l: string, row: seq<Cell>)
    requires RecordOutcome(l) == Ok(Written(row))
    ensures |Fields(l)| == 3
    ensures var syls := Split(Fields(l)[1], '-'); var stressed := StressedPositions(syls);
      && |stressed| == 1 && |row| == |Header|
      && (row[4] == Text("final") <==> stressed[0] + 1 == |syls|)
      && (row[4] == Text("penult") <==> stressed[0] + 2 == |syls|)
      && (row[4] == Text("antepenult") <==> stressed[0] + 3 == |syls|)
  {
    AcceptedParts(l, Written(row));
  }

  /** The alternative group: penult for a final stress (all "NA" for a
      monosyllable), final for a penult stress, penult for an antepenult stress. */
  lemma WrittenAlternative(l: string, row: seq<Cell>)
    requires RecordOutcome(l) == Ok(Written(row))
    ensures |Fields(l)| == 3
    ensures var syls := Split(Fields(l)[1], '-'); var stressed := StressedPositions(syls);
      && |stressed| == 1 && |row| == |Header| && |syls| >= 1
      && InfoAt(syls, "penult").Ok? && InfoAt(syls, "final").Ok?
      && (stressed[0] + 2 == |syls| ==> row[25..30] == InfoCells(InfoAt(syls, "final").value))
      && (stressed[0] + 2 != |syls| && |syls| >= 2 ==> row[25..30] == InfoCells(InfoAt(syls, "penult").value))
      && (|syls| == 1 ==> row[25..30] == InfoCells(NA))
  {
    AcceptedParts(l, Written(row));
    var entries := Fields(l);
    var syls := Split(entries[1], '-');
    var ante, pen, fin := InfoAt(syls, "antepenult").value, InfoAt(syls, "penult").value, InfoAt(syls, "final").value;
    PlacedAlternative(entries[0], entries[1], syls, StressedPositions(syls)[0], ante, pen, fin, entries[2], row);
  }

  /** Which group fills the alternative columns of a classified word. */
  lemma PlacedAlternative(word: string, pron: string, syls: seq<string>, k: nat,
                          ante: Info, pen: Info, fin: Info, pos: string, row: seq<Cell>)
    requires Placed(word, pron, syls, k, ante, pen, fin, pos) == Written(row)
    ensures |row| == |Header| && |syls| >= 1
    ensures k + 2 == |syls| ==> row[25..30] == InfoCells(fin)
    ensures k + 2 != |syls| && |syls| >= 2 ==> row[25..30] == InfoCells(pen)
    ensures |syls| == 1 ==> row[25..30] == InfoCells(NA)
  {
    if Classify(k, |syls|).Some? {
      var loc := Classify(k, |syls|).value;
      var alt := if loc == Final && |syls| <= 1 then NA else Pick(AltRole(loc), ante, pen, fin);
      assert row == Row(word, pron, |syls|, k + 1, RoleName(loc), ante, pen, fin, Pick(loc, ante, pen, fin), alt, pos);
      assert row[25..30] == InfoCells(alt);
      assert k + FromEnd(loc) == |syls|;
    }
  }

  /** The positional groups: the final syllable always, the penult and
      antepenult when the word is long enough, all "NA" otherwise. */
  lemma WrittenPositions(l: string, row: seq<Cell>)
    requires RecordOutcome(l) == Ok(Written(row))
    ensures |Fields(l)| == 3
    ensures var syls := Split(Fields(l)[1], '-');
      && |syls| >= 1 && |row| == |Header|
      && SyllableInfo(syls[|syls| - 1]).Ok?
      && row[15..20] == InfoCells(SyllableInfo(syls[|syls| - 1]).value)
      && (|syls| >= 2 ==>
            (SyllableInfo(syls[|syls| - 2]).Ok? && row[10..15] == InfoCells(SyllableInfo(syls[|syls| - 2]).value)))
      && (|syls| < 2 ==> row[10..15] == InfoCells(NA))
      && (|syls| >= 3 ==>
            (SyllableInfo(syls[|syls| - 3]).Ok? && row[5..10] == InfoCells(SyllableInfo(syls[|syls| - 3]).value)))
      && (|syls| < 3 ==> row[5..10] == InfoCells(NA))
  {
    AcceptedParts(l, Written(row));
    var entries := Fields(l);
    var syls := Split(entries[1], '-');
    var ante, pen, fin := InfoAt(syls, "antepenult").value, InfoAt(syls, "penult").value, InfoAt(syls, "final").value;
    PlacedPositions(entries[0], entries[1], syls, StressedPositions(syls)[0], ante, pen, fin, entries[2], row);
    LocationOutcomes(syls, "penult");
    LocationOutcomes(syls, "antepenult");
    RoleSelection(syls, Final);
    if |syls| >= 2 {
      RoleSelection(syls, Penult);
    }
    if |syls| >= 3 {
      RoleSelection(syls, Antepenult);
    }
  }

  /** The positional groups of a classified word are the three positional results. */
  lemma PlacedPositions(word: string, pron: string, syls: seq<string>, k: nat,
                        ante: Info, pen: Info, fin: Info, pos: string, row: seq<Cell>)
    requires Placed(word, pron, syls, k, ante, pen, fin, pos) == Written(row)
    ensures |row| == |Header|
    ensures row[5..10] == InfoCells(ante) && row[10..15] == InfoCells(pen) && row[15..20] == InfoCells(fin)
  {
  }


  /** A word set aside: its stressed syllable lies before the antepenult,
      and its last three syllables were still described without failure. */
  lemma SkippedRecord(l: string, word: string, pron: string)
    requires RecordOutcome(l) == Ok(Skipped(word, pron))
    ensures |Fields(l)| == 3 && word == Fields(l)[0] && pron == Fields(l)[1]
    ensures var syls := Split(pron, '-'); var stressed := StressedPositions(syls);
      && |stressed| == 1
      && stressed[0] + 3 < |syls|
      && InfoAt(syls, "antepenult").Ok? && InfoAt(syls, "penult").Ok? && InfoAt(syls, "final").Ok?
  {
    AcceptedParts(l, Skipped(word, pron));
  }

  /** Why a line is rejected: a field count other than three, then a
      stress-mark count other than one; a location name is never the cause. */
  lemma RecordRejections(l: string)
    ensures RecordOutcome(l).Err? && RecordOutcome(l).error.FieldCount? <==> |Fields(l)| != 3
    ensures |Fields(l)| == 3 ==>
      var syls := Split(Fields(l)[1], '-');
      (RecordOutcome(l).Err? && RecordOutcome(l).error.StressMarkCount? <==> |StressedPositions(syls)| != 1)
    ensures RecordOutcome(l).Err? ==> !RecordOutcome(l).error.LocationRejected?
  {
    var entries := Fields(l);
    if |entries| == 3 {
      var syls := Split(entries[1], '-');
      assert !InfoAt(syls, "antepenult").Err? || !InfoAt(syls, "antepenult").error.LocationRejected?;
      assert !InfoAt(syls, "penult").Err? || !InfoAt(syls, "penult").error.LocationRejected?;
      assert !InfoAt(syls, "final").Err? || !InfoAt(syls, "final").error.LocationRejected?;
    }
  }
}
