/**
 * Shaping the scraped word data into the rows of `database.csv`: the Oxford rows of the
 * chosen parts of speech (`get_pos_data`), joined with the PROMT translation rows
 * (`get_processed_data`), and the columns the recordings are then downloaded from
 * (`download_mp3`). Rows are lists of strings; the scraping and the file writing are inputs
 * and outputs of the model, not part of it.
 */
module Data {
  import opened Common

  type Row = seq<string>

  /** The part-of-speech names `get_pos_data` treats as verbs. */
  const VERB_FORMS: seq<string> := ["verb", "linking verb", "modal verb", "auxiliary verb"]

  // ---------------------------------------------------------------- get_pos_data

  /** A row without a column 1: reading `loop_list[1]` raises an IndexError. */
  predicate Short(row: Row) {
    |row| < 2
  }

  /** A row of a chosen part of speech. */
  predicate Kept(row: Row, posList: seq<string>) {
    |row| >= 2 && row[1] in posList
  }

  /** The row as `get_pos_data` leaves it: a kept row of a verb form is rewritten to plain "verb". */
  function Normalise(row: Row, posList: seq<string>): (r: Row)
    ensures |r| == |row| && forall j :: 0 <= j < |row| && j != 1 ==> r[j] == row[j]
    ensures Kept(row, posList) ==> r[1] !in VERB_FORMS[1..] && (r[1] == row[1] || r[1] == "verb")
    ensures r != row ==> Kept(row, posList) && row[1] in VERB_FORMS && r[1] == "verb"
  {
    if Kept(row, posList) && row[1] in VERB_FORMS then row[1 := "verb"] else row
  }

  /** Normalising twice is normalising once, as long as plain "verb" is itself chosen. */
  lemma NormaliseIdempotent(row: Row, posList: seq<string>)
    requires "verb" in posList
    ensures Normalise(Normalise(row, posList), posList) == Normalise(row, posList)
  {
  }

  /** The three lists `get_pos_data` returns: the rows kept, and their words and parts of speech. */
  datatype PosData = PosData(rows: seq<Row>, words: seq<string>, pos: seq<string>)

  /** The three lists line up: entry `i` of the words and of the parts of speech are columns 0 and 1 of row `i`. */
  predicate Aligned(d: PosData) {
    && |d.words| == |d.rows| && |d.pos| == |d.rows|
    && forall i :: 0 <= i < |d.rows| ==> |d.rows[i]| >= 2 && d.words[i] == d.rows[i][0] && d.pos[i] == d.rows[i][1]
  }

  /**
   * `get_pos_data`: each row of a chosen part of speech, normalised, is appended (with its word
   * and part of speech) unless an equal row was appended before. A row without a column 1
   * raises, and the function returns nothing.
   */
  function PosDataOf(rows: seq<Row>, posList: seq<string>): (r: Option<PosData>)
    ensures r.None? <==> exists i :: 0 <= i < |rows| && Short(rows[i])
    ensures r.Some? ==> Aligned(r.value) && Distinct(r.value.rows)
    ensures r.Some? ==> forall x :: x in r.value.rows <==>
      exists i :: 0 <= i < |rows| && Kept(rows[i], posList) && x == Normalise(rows[i], posList)
    ensures r.Some? ==> forall i :: 0 <= i < |r.value.pos| ==>
      r.value.pos[i] !in VERB_FORMS[1..] && (r.value.pos[i] in posList || r.value.pos[i] == "verb")
    decreases |rows|
  {
    if |rows| == 0 then Some(PosData([], [], []))
    else
      var n := |rows| - 1;
      match PosDataOf(rows[..n], posList)
      case None => None
      case Some(acc) =>
        if Short(rows[n]) then None
        else if !Kept(rows[n], posList) then Some(acc)
        else
          var row := Normalise(rows[n], posList);
          if row in acc.rows then Some(acc)
          else Some(PosData(acc.rows + [row], acc.words + [row[0]], acc.pos + [row[1]]))
  }

  /** How many rows `get_pos_data` gets through before one raises (all of them when none does). */
  function Stop(rows: seq<Row>): (r: nat)
    ensures r <= |rows| && forall j :: 0 <= j < r ==> !Short(rows[j])
    ensures r < |rows| ==> Short(rows[r])
  {
    match FirstIndex(rows, Short)
    case Some(k) => k
    case None => |rows|
  }

  /** Only the first row that raises can be where `get_pos_data` stops. */
  lemma StopAt(rows: seq<Row>, i: nat)
    requires i < |rows| && Short(rows[i])
    requires forall j :: 0 <= j < i ==> !Short(rows[j])
    ensures Stop(rows) == i
  {
  }

  /** The rows with the first `k` of them normalised: the array after `get_pos_data` got through `k` rows. */
  function NormalisedUpTo(rows: seq<Row>, posList: seq<string>, k: nat): (r: seq<Row>)
    requires k <= |rows|
    ensures |r| == |rows|
    ensures forall j :: 0 <= j < |rows| ==> r[j] == if j < k then Normalise(rows[j], posList) else rows[j]
  {
    seq(|rows|, j requires 0 <= j < |rows| => if j < k then Normalise(rows[j], posList) else rows[j])
  }

  lemma NormalisedUpToStep(rows: seq<Row>, posList: seq<string>, k: nat)
    requires k < |rows|
    ensures NormalisedUpTo(rows, posList, k + 1) == NormalisedUpTo(rows, posList, k)[k := Normalise(rows[k], posList)]
  {
    var a, b := NormalisedUpTo(rows, posList, k + 1), NormalisedUpTo(rows, posList, k)[k := Normalise(rows[k], posList)];
    assert forall j :: 0 <= j < |a| ==> a[j] == b[j];
  }

  /** One more row through `get_pos_data`. */
  lemma PosDataOfStep(rows: seq<Row>, posList: seq<string>, i: nat, acc: PosData)
    requires i < |rows| && !Short(rows[i]) && PosDataOf(rows[..i], posList) == Some(acc)
    ensures var row := Normalise(rows[i], posList);
      PosDataOf(rows[..i + 1], posList)
      == if !Kept(rows[i], posList) || row in acc.rows then Some(acc)
         else Some(PosData(acc.rows + [row], acc.words + [row[0]], acc.pos + [row[1]]))
  {
    assert rows[..i + 1][..i] == rows[..i];
  }

  /**
   * `get_pos_data` over the list of rows, each of which it may rewrite in place: the rows
   * before the one that raises end up normalised, the rest as they were.
   */
  method GetPosData(rows: array<Row>, posList: seq<string>) returns (r: Option<PosData>)
    modifies rows
    ensures r == PosDataOf(old(rows[..]), posList)
    ensures rows[..] == NormalisedUpTo(old(rows[..]), posList, Stop(old(rows[..])))
  {
    ghost var input := rows[..];
    var dataList: seq<Row> := [];
    var wordList: seq<string> := [];
    var posNames: seq<string> := [];
    var i := 0;
    while i < rows.Length
      invariant 0 <= i <= rows.Length && |input| == rows.Length
      invariant forall j :: 0 <= j < i ==> !Short(input[j])
      invariant rows[..] == NormalisedUpTo(input, posList, i)
      invariant PosDataOf(input[..i], posList) == Some(PosData(dataList, wordList, posNames))
    {
      assert rows[i] == input[i];
      NormalisedUpToStep(input, posList, i);
      if |rows[i]| < 2 {
        StopAt(input, i);
        return None;
      }
      PosDataOfStep(input, posList, i, PosData(dataList, wordList, posNames));
      var row := rows[i];
      if row[1] in posList {
        if row[1] in VERB_FORMS {
          row := row[1 := "verb"];
          rows[i] := row;
        }
        if row !in dataList {
          dataList := dataList + [row];
          wordList := wordList + [row[0]];
          posNames := posNames + [row[1]];
        }
      }
      assert row == Normalise(input[i], posList);
      assert rows[..] == NormalisedUpTo(input, posList, i)[i := row];
      i := i + 1;
    }
    assert input[..i] == input;
    r := Some(PosData(dataList, wordList, posNames));
  }

  // ---------------------------------------------------------------- get_processed_data

  /** A translation row `[ru, en, transcription, example_en, example_ru]` for `word` with both examples non-empty. */
  predicate Usable(row: Row, word: string) {
    |row| >= 2 && row[1] == word && row[|row| - 1] != "" && row[|row| - 2] != ""
  }

  /** An Oxford row for `word`. */
  predicate Names(row: Row, word: string) {
    |row| >= 1 && row[0] == word
  }

  /** The comprehensions read column 0 of every Oxford row and column 1 of every translation row. */
  predicate Readable(trans: seq<Row>, posRows: seq<Row>) {
    (forall row :: row in trans ==> |row| >= 2) && (forall row :: row in posRows ==> |row| >= 1)
  }

  /** Some translation row for `word` has both examples. */
  predicate HasUsable(trans: seq<Row>, word: string) {
    exists row :: row in trans && Usable(row, word)
  }

  /** Some Oxford row is for `word`. */
  predicate HasPosRow(posRows: seq<Row>, word: string) {
    exists row :: row in posRows && Names(row, word)
  }

  /** `data_list1`: the Oxford rows for `word`. */
  function PosRowsFor(posRows: seq<Row>, word: string): seq<Row> {
    Filter(posRows, (row: Row) => Names(row, word))
  }

  /** `data_list2`: the translation rows for `word` with both examples. */
  function TranslationsFor(trans: seq<Row>, word: string): seq<Row> {
    Filter(trans, (row: Row) => Usable(row, word))
  }

  /** What one word of the loop gives: an exception, nothing, or the joined row. */
  datatype JoinStep = JoinRaised | NoTranslation | Joined(row: Row)

  /**
   * One word of `get_processed_data`: the first Oxford row for the word, then the Russian
   * word, then the first usable translation row from its column 2 on. With a usable
   * translation but no Oxford row, `data_list1[0]` raises.
   */
  function Join(trans: seq<Row>, posRows: seq<Row>, word: string): (r: JoinStep)
    ensures r.NoTranslation? <==> Readable(trans, posRows) && !HasUsable(trans, word)
    ensures r.JoinRaised? <==> !Readable(trans, posRows) || (HasUsable(trans, word) && !HasPosRow(posRows, word))
  {
    if !Readable(trans, posRows) then JoinRaised
    else
      var list1 := PosRowsFor(posRows, word);
      var list2 := TranslationsFor(trans, word);
      if |list2| == 0 then NoTranslation
      else if |list1| == 0 then JoinRaised
      else
        assert list1[0] in list1 && list2[0] in list2;
        Joined(list1[0] + [list2[0][0]] + list2[0][2..])
  }

  /**
   * The joined row is made of the first Oxford row for the word and the first translation
   * row for it that has both examples.
   */
  lemma JoinTakesFirstRows(trans: seq<Row>, posRows: seq<Row>, word: string)
    requires Join(trans, posRows, word).Joined?
    ensures exists j, k ::
      && 0 <= j < |posRows| && 0 <= k < |trans|
      && Names(posRows[j], word) && (forall i :: 0 <= i < j ==> !Names(posRows[i], word))
      && Usable(trans[k], word) && (forall i :: 0 <= i < k ==> !Usable(trans[i], word))
      && Join(trans, posRows, word).row == posRows[j] + [trans[k][0]] + trans[k][2..]
  {
    FilterFirst(posRows, (row: Row) => Names(row, word));
    FilterFirst(trans, (row: Row) => Usable(row, word));
    var j := FirstIndex(posRows, (row: Row) => Names(row, word)).value;
    var k := FirstIndex(trans, (row: Row) => Usable(row, word)).value;
    assert Join(trans, posRows, word).row == posRows[j] + [trans[k][0]] + trans[k][2..];
  }

  /** What `Join` gives for each word, in order. */
  function Steps(trans: seq<Row>, posRows: seq<Row>, words: seq<string>): (r: seq<JoinStep>)
    ensures |r| == |words| && forall i :: 0 <= i < |words| ==> r[i] == Join(trans, posRows, words[i])
  {
    seq(|words|, i requires 0 <= i < |words| => Join(trans, posRows, words[i]))
  }

  /** The rows the loop gathers from the steps: `None` once a step raises. */
  function Collect(steps: seq<JoinStep>): (r: Option<seq<Row>>)
    ensures r.None? <==> exists i :: 0 <= i < |steps| && steps[i].JoinRaised?
    decreases |steps|
  {
    if |steps| == 0 then Some([])
    else
      var n := |steps| - 1;
      assert forall i :: 0 <= i < n ==> steps[..n][i] == steps[i];
      match Collect(steps[..n])
      case None => None
      case Some(acc) =>
        match steps[n]
        case JoinRaised => None
        case NoTranslation => Some(acc)
        case Joined(row) => Some(acc + [row])
  }

  /** The loop after one more step. */
  lemma CollectNext(steps: seq<JoinStep>, k: nat)
    requires k < |steps|
    ensures Collect(steps[..k + 1]) ==
      match Collect(steps[..k])
      case None => None
      case Some(acc) =>
        match steps[k]
        case JoinRaised => None
        case NoTranslation => Some(acc)
        case Joined(row) => Some(acc + [row])
    ensures steps[k].JoinRaised? ==> Collect(steps).None?
  {
    assert steps[..k + 1][..k] == steps[..k];
  }

  /** Every gathered row comes from a step that joined it. */
  lemma {:induction false} CollectMembers(steps: seq<JoinStep>)
    requires Collect(steps).Some?
    ensures forall x :: x in Collect(steps).value ==> Joined(x) in steps
    decreases |steps|
  {
    if |steps| > 0 {
      var n := |steps| - 1;
      CollectMembers(steps[..n]);
      assert forall x :: x in steps[..n] ==> x in steps;
    }
  }

  /** The row of every step that joined one is gathered. */
  lemma {:induction false} CollectComplete(steps: seq<JoinStep>)
    requires Collect(steps).Some?
    ensures forall i :: 0 <= i < |steps| && steps[i].Joined? ==> steps[i].row in Collect(steps).value
    decreases |steps|
  {
    if |steps| > 0 {
      var n := |steps| - 1;
      CollectComplete(steps[..n]);
      assert forall i :: 0 <= i < n ==> steps[..n][i] == steps[i];
    }
  }

  /** The loop of `get_processed_data`, before the dedupe: one joined row per word that has one, in order. */
  function ProcessedRows(trans: seq<Row>, posRows: seq<Row>, words: seq<string>): (r: Option<seq<Row>>)
    ensures r.None? <==> exists i :: 0 <= i < |words| && Join(trans, posRows, words[i]).JoinRaised?
  {
    var steps := Steps(trans, posRows, words);
    assert forall i :: 0 <= i < |steps| && steps[i].JoinRaised? ==> Join(trans, posRows, words[i]).JoinRaised?;
    Collect(steps)
  }

  /** Every row of the loop is the joined row of one of the words. */
  lemma ProcessedRowsMembers(trans: seq<Row>, posRows: seq<Row>, words: seq<string>)
    requires ProcessedRows(trans, posRows, words).Some?
    ensures forall x :: x in ProcessedRows(trans, posRows, words).value ==>
      exists i :: 0 <= i < |words| && Join(trans, posRows, words[i]) == Joined(x)
  {
    var steps := Steps(trans, posRows, words);
    CollectMembers(steps);
    forall x | x in Collect(steps).value ensures exists i :: 0 <= i < |words| && Join(trans, posRows, words[i]) == Joined(x) {
      var i :| 0 <= i < |steps| && steps[i] == Joined(x);
      assert Join(trans, posRows, words[i]) == Joined(x);
    }
  }

  /** The joined row of every word is among the rows of the loop. */
  lemma ProcessedRowsComplete(trans: seq<Row>, posRows: seq<Row>, words: seq<string>)
    requires ProcessedRows(trans, posRows, words).Some?
    ensures forall i :: 0 <= i < |words| && Join(trans, posRows, words[i]).Joined? ==>
      Join(trans, posRows, words[i]).row in ProcessedRows(trans, posRows, words).value
  {
    CollectComplete(Steps(trans, posRows, words));
  }

  /** One word of the loop: the two comprehensions, then the joined row. */
  method JoinWord(trans: seq<Row>, posRows: seq<Row>, word: string) returns (step: JoinStep)
    ensures step == Join(trans, posRows, word)
  {
    if !Readable(trans, posRows) {
      return JoinRaised;
    }
    var list1 := PosRowsFor(posRows, word);
    var list2 := TranslationsFor(trans, word);
    if |list2| == 0 {
      return NoTranslation;
    }
    if |list1| == 0 {
      return JoinRaised;
    }
    return Joined(list1[0] + [list2[0][0]] + list2[0][2..]);
  }

  /** The loop over the words, appending each joined row to `data_list`. */
  method GatherRows(trans: seq<Row>, posRows: seq<Row>, words: seq<string>) returns (r: Option<seq<Row>>)
    ensures r == ProcessedRows(trans, posRows, words)
  {
    ghost var steps := Steps(trans, posRows, words);
    var list: seq<Row> := [];
    var k := 0;
    while k < |words|
      invariant 0 <= k <= |words|
      invariant Collect(steps[..k]) == Some(list)
    {
      CollectNext(steps, k);
      var step := JoinWord(trans, posRows, words[k]);
      assert step == steps[k];
      if step.JoinRaised? {
        assert Collect(steps).None?;
        return None;
      }
      if step.Joined? {
        list := list + [step.row];
      }
      k := k + 1;
    }
    assert steps[..k] == steps;
    return Some(list);
  }

  /** `list(set(data_list))`: each row once, in an order the model does not fix. */
  method Dedupe(list: seq<Row>) returns (out: seq<Row>)
    ensures Distinct(out)
    ensures forall x :: x in out <==> x in list
  {
    var remaining := set x | x in list;
    out := [];
    while remaining != {}
      invariant Distinct(out)
      invariant forall x :: x in remaining ==> x in list && x !in out
      invariant forall x :: x in list <==> x in out || x in remaining
      decreases |remaining|
    {
      var x :| x in remaining;
      out := out + [x];
      remaining := remaining - {x};
    }
  }

  /**
   * `get_processed_data`: the joined rows with duplicates removed through a set, in whatever
   * order the set gives them back.
   */
  method GetProcessedData(trans: seq<Row>, posRows: seq<Row>, words: seq<string>) returns (r: Option<seq<Row>>)
    ensures r.None? <==> ProcessedRows(trans, posRows, words).None?
    ensures r.Some? ==> Distinct(r.value)
    ensures r.Some? ==> forall x :: x in r.value <==> x in ProcessedRows(trans, posRows, words).value
  {
    var list := GatherRows(trans, posRows, words);
    if list.None? {
      return None;
    }
    var out := Dedupe(list.value);
    r := Some(out);
  }

  // ---------------------------------------------------------------- download_mp3

  /** The three lists handed to the recording download: the words, the links and the transcriptions. */
  datatype Mp3Lists = Mp3Lists(words: seq<string>, urls: seq<string>, transcriptions: seq<string>)

  /**
   * Columns 0, 3 and 5 (word, link, transcription) of every processed row; a row with fewer
   * than six columns raises.
   */
  function Mp3Columns(rows: seq<Row>): (r: Option<Mp3Lists>)
    ensures r.None? <==> exists i :: 0 <= i < |rows| && |rows[i]| < 6
    ensures r.Some? ==> |r.value.words| == |rows| && |r.value.urls| == |rows| && |r.value.transcriptions| == |rows|
    ensures r.Some? ==> forall i :: 0 <= i < |rows| ==>
      r.value.words[i] == rows[i][0] && r.value.urls[i] == rows[i][3] && r.value.transcriptions[i] == rows[i][5]
    decreases |rows|
  {
    if |rows| == 0 then Some(Mp3Lists([], [], []))
    else
      var n := |rows| - 1;
      assert forall i :: 0 <= i < n ==> rows[..n][i] == rows[i];
      match Mp3Columns(rows[..n])
      case None => None
      case Some(acc) =>
        if |rows[n]| < 6 then None
        else Some(Mp3Lists(acc.words + [rows[n][0]], acc.urls + [rows[n][3]], acc.transcriptions + [rows[n][5]]))
  }

  /** `download_mp3` as written: the loop starts at `processed_data_list[1:]`. */
  function Mp3ColumnsAsWritten(rows: seq<Row>): (r: Option<Mp3Lists>)
    ensures |rows| > 0 ==> r == Mp3Columns(rows[1..])
  {
    Mp3Columns(if |rows| == 0 then [] else rows[1..])
  }

  /**
   * The processed list has no header row (the header is written to the file separately), so
   * the loop as written drops a real word: with one processed row, no recording is fetched.
   */
  lemma DownloadSkipsFirstRow(row: Row)
    requires |row| >= 6
    ensures Mp3ColumnsAsWritten([row]) == Some(Mp3Lists([], [], []))
    ensures Mp3Columns([row]) == Some(Mp3Lists([row[0]], [row[3]], [row[5]]))
  {
    assert [row][1..] == [] && [row][..0] == [];
    var empty: seq<string> := [];
    assert Mp3Columns([]) == Some(Mp3Lists(empty, empty, empty));
    assert empty + [row[0]] == [row[0]] && empty + [row[3]] == [row[3]] && empty + [row[5]] == [row[5]];
  }

  /** The download loop over every processed row (columns 0, 3 and 5). */
  method DownloadColumns(rows: seq<Row>) returns (r: Option<Mp3Lists>)
    ensures r == Mp3Columns(rows)
  {
    var words: seq<string> := [];
    var urls: seq<string> := [];
    var transcriptions: seq<string> := [];
    var k := 0;
    while k < |rows|
      invariant 0 <= k <= |rows|
      invariant Mp3Columns(rows[..k]) == Some(Mp3Lists(words, urls, transcriptions))
    {
      assert rows[..k + 1][..k] == rows[..k];
      if |rows[k]| < 6 {
        return None;
      }
      words := words + [rows[k][0]];
      urls := urls + [rows[k][3]];
      transcriptions := transcriptions + [rows[k][5]];
      k := k + 1;
    }
    assert rows[..k] == rows;
    r := Some(Mp3Lists(words, urls, transcriptions));
  }

  /** Every word of the processed data gets its recording fetched. */
  lemma EveryProcessedWordDownloaded(rows: seq<Row>)
    requires forall i :: 0 <= i < |rows| ==> |rows[i]| >= 6
    ensures Mp3Columns(rows).Some?
    ensures forall x :: x in rows ==> x[0] in Mp3Columns(rows).value.words
  {
    forall x | x in rows ensures x[0] in Mp3Columns(rows).value.words {
      var i :| 0 <= i < |rows| && rows[i] == x;
      assert Mp3Columns(rows).value.words[i] == x[0];
    }
  }
}
