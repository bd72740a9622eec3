/**
 * `Parsing`: shaping what the Promt and Oxford pages give for a word the user types into the
 * records `add_user_word` stores. The pages themselves are left out: the parsed Promt map
 * (`None` when the page could not be fetched) and the Oxford mp3 link are parameters.
 */
module Parsing {
  import opened Common
  import opened RepositoryModel
  import Functionality

  /** One translation of the parsed Promt map: a `word` always, the other keys possibly `None`. */
  datatype PromtEntry = PromtEntry(word: string, transcription: Option<string>, enExample: Option<string>, ruExample: Option<string>)

  /** One dictionary of the list `get_word_info` builds; `mp3Url` is `None` while the key is absent. */
  datatype WordInfo = WordInfo(
    enWord: string,
    ruWord: Option<string>,
    enTrans: Option<string>,
    posName: string,
    enExample: Option<string>,
    ruExample: Option<string>,
    mp3Url: Option<string>)

  const UNIDENTIFIED: string := "unidentified"
  const NO_EN_EXAMPLE: string := "No example"
  const NO_RU_EXAMPLE: string := "Пример отсутствует"

  /** The record for part of speech `pos`, from its first translation. */
  function PromtRecord(enWord: string, pos: string, e: PromtEntry): WordInfo {
    WordInfo(enWord, Some(e.word), e.transcription, pos, e.enExample, e.ruExample, None)
  }

  /** The record returned when the page lists none of the requested parts of speech. */
  function Sentinel(enWord: string): WordInfo {
    WordInfo(enWord, None, Some(""), UNIDENTIFIED, Some(NO_EN_EXAMPLE), Some(NO_RU_EXAMPLE), None)
  }

  /** The requested parts of speech the page lists, in request order. */
  function PresentPos(posList: seq<string>, parsed: map<string, seq<PromtEntry>>): (r: seq<string>)
    ensures |r| <= |posList|
    ensures forall p :: p in r <==> p in posList && p in parsed
  {
    Filter(posList, (p: string) => p in parsed)
  }

  lemma PresentPosSnoc(front: seq<string>, pos: string, parsed: map<string, seq<PromtEntry>>)
    ensures PresentPos(front + [pos], parsed) == PresentPos(front, parsed) + (if pos in parsed then [pos] else [])
  {
    FilterSnoc(front, pos, (p: string) => p in parsed);
  }

  /**
   * The loop of `receive_promt_data` over `pos_list`: one record per listed part of speech;
   * `None` for the IndexError of a part of speech listed with no translation.
   */
  function PosRecords(enWord: string, posList: seq<string>, parsed: map<string, seq<PromtEntry>>): (r: Option<seq<WordInfo>>)
    ensures r.Some? <==> forall i :: 0 <= i < |posList| && posList[i] in parsed ==> |parsed[posList[i]]| > 0
    ensures r.Some? ==> RecordsFor(enWord, PresentPos(posList, parsed), parsed, r.value)
    decreases |posList|
  {
    if |posList| == 0 then Some([])
    else
      var n := |posList| - 1;
      var front := posList[..n];
      assert posList == front + [posList[n]];
      PresentPosSnoc(front, posList[n], parsed);
      assert forall i :: 0 <= i < n ==> front[i] == posList[i];
      match PosRecords(enWord, front, parsed)
      case None => None
      case Some(rs) =>
        var pos := posList[n];
        if pos !in parsed then Some(rs)
        else if |parsed[pos]| == 0 then None
        else
          RecordsForSnoc(enWord, PresentPos(front, parsed), pos, parsed, rs);
          Some(rs + [PromtRecord(enWord, pos, parsed[pos][0])])
  }

  /** `rs` holds, in order, the record of the first translation of each part of speech in `ps`. */
  predicate RecordsFor(enWord: string, ps: seq<string>, parsed: map<string, seq<PromtEntry>>, rs: seq<WordInfo>) {
    && |rs| == |ps|
    && forall k :: 0 <= k < |ps| ==> ps[k] in parsed && |parsed[ps[k]]| > 0 && rs[k] == PromtRecord(enWord, ps[k], parsed[ps[k]][0])
  }

  lemma RecordsForSnoc(enWord: string, ps: seq<string>, pos: string, parsed: map<string, seq<PromtEntry>>, rs: seq<WordInfo>)
    requires RecordsFor(enWord, ps, parsed, rs) && pos in parsed && |parsed[pos]| > 0
    ensures RecordsFor(enWord, ps + [pos], parsed, rs + [PromtRecord(enWord, pos, parsed[pos][0])])
  {
    var r := rs + [PromtRecord(enWord, pos, parsed[pos][0])];
    assert forall k :: 0 <= k < |ps| ==> r[k] == rs[k] && (ps + [pos])[k] == ps[k];
  }

  datatype Promt = PromtRaised | PromtRecords(records: seq<WordInfo>)

  /**
   * `receive_promt_data`: the records of the listed parts of speech, or the sentinel when there
   * are none. A page that could not be fetched leaves the map `None`, and indexing it raises a
   * TypeError (the code only catches KeyError).
   */
  function ReceivePromtData(enWord: string, posList: seq<string>, translation: Option<map<string, seq<PromtEntry>>>): (r: Promt)
    ensures translation.None? ==> (r == PromtRaised <==> |posList| > 0)
    ensures r.PromtRecords? ==> |r.records| > 0
    ensures r.PromtRecords? ==> forall k :: 0 <= k < |r.records| ==> r.records[k].enWord == enWord && r.records[k].mp3Url.None?
    ensures translation.Some? && PosRecords(enWord, posList, translation.value).Some? ==>
      r == PromtRecords(if |PresentPos(posList, translation.value)| == 0 then [Sentinel(enWord)]
                        else PosRecords(enWord, posList, translation.value).value)
    ensures translation.Some? && PosRecords(enWord, posList, translation.value).None? ==> r == PromtRaised
  {
    if translation.None? then
      if |posList| > 0 then PromtRaised else PromtRecords([Sentinel(enWord)])
    else
      match PosRecords(enWord, posList, translation.value)
      case None => PromtRaised
      case Some(rs) =>
        if |rs| == 0 then PromtRecords([Sentinel(enWord)]) else PromtRecords(rs)
  }

  /** Every record of `receive_promt_data` has a translation, except the sentinel, which then stands alone. */
  lemma PromtRecordsTranslated(enWord: string, posList: seq<string>, translation: Option<map<string, seq<PromtEntry>>>)
    requires ReceivePromtData(enWord, posList, translation).PromtRecords?
    ensures var rs := ReceivePromtData(enWord, posList, translation).records;
      rs == [Sentinel(enWord)] || forall k :: 0 <= k < |rs| ==> rs[k].ruWord.Some?
  {
  }

  /** `receive_promt_data` as the loop that appends to `word_data`. */
  method ReceivePromtRecords(enWord: string, posList: seq<string>, translation: Option<map<string, seq<PromtEntry>>>) returns (r: Promt)
    ensures r == ReceivePromtData(enWord, posList, translation)
  {
    var wordData: seq<WordInfo> := [];
    for i := 0 to |posList|
      invariant translation.None? ==> i == 0 && wordData == []
      invariant translation.Some? ==> PosRecords(enWord, posList[..i], translation.value) == Some(wordData)
    {
      if translation.None? {
        return PromtRaised;
      }
      PosRecordsStep(enWord, posList, i, translation.value);
      var pos := posList[i];
      if pos in translation.value {
        if |translation.value[pos]| == 0 {
          PosRecordsNoneExtends(enWord, posList, i + 1, translation.value);
          return PromtRaised;
        }
        wordData := wordData + [PromtRecord(enWord, pos, translation.value[pos][0])];
      }
    }
    assert posList[..|posList|] == posList;
    if |wordData| > 0 {
      return PromtRecords(wordData);
    }
    return PromtRecords([Sentinel(enWord)]);
  }

  /** One more turn of the loop over the request list. */
  lemma PosRecordsStep(enWord: string, posList: seq<string>, i: nat, parsed: map<string, seq<PromtEntry>>)
    requires i < |posList| && PosRecords(enWord, posList[..i], parsed).Some?
    ensures var rs := PosRecords(enWord, posList[..i], parsed).value;
      var pos := posList[i];
      PosRecords(enWord, posList[..i + 1], parsed)
        == if pos !in parsed then Some(rs)
           else if |parsed[pos]| == 0 then None
           else Some(rs + [PromtRecord(enWord, pos, parsed[pos][0])])
  {
    assert posList[..i + 1][..i] == posList[..i];
  }

  /** Once a prefix of the request list raises, so does the whole list. */
  lemma PosRecordsNoneExtends(enWord: string, posList: seq<string>, i: nat, parsed: map<string, seq<PromtEntry>>)
    requires i <= |posList| && PosRecords(enWord, posList[..i], parsed).None?
    ensures PosRecords(enWord, posList, parsed).None?
  {
    var j :| 0 <= j < i && posList[..i][j] in parsed && |parsed[posList[..i][j]]| == 0;
    assert posList[j] == posList[..i][j];
  }

  // ---------------------------------------------------------------- get_word_info

  /** `update(oxford_data)`: the record with the Oxford `mp_3_url` key set. */
  function WithUrl(d: WordInfo, url: string): WordInfo {
    d.(mp3Url := Some(url))
  }

  /**
   * The merge loop of `get_word_info`: the record at `idx` is appended unless an equal one is
   * listed already, and then `word_list[idx]` gets the link; `None` for the IndexError that
   * indexing by the position in the other list would raise once the two lists drift apart.
   */
  function MergeOxford(promt: seq<WordInfo>, url: string): (r: Option<seq<WordInfo>>)
    ensures r.Some? ==> |r.value| <= |promt|
    ensures r.Some? ==> forall x :: x in r.value ==> exists k :: 0 <= k < |promt| && (x == promt[k] || x == WithUrl(promt[k], url))
    decreases |promt|
  {
    if |promt| == 0 then Some([])
    else
      var idx := |promt| - 1;
      match MergeOxford(promt[..idx], url)
      case None => None
      case Some(list) =>
        if promt[idx] in list then Some(list)
        else
          var appended := list + [promt[idx]];
          if idx < |appended| then
            var out := appended[idx := WithUrl(appended[idx], url)];
            MergeStepFrom(promt, url, list, idx, out);
            Some(out)
          else None
  }

  /** The records of one merge step come from the input, each as it is or with the link. */
  lemma MergeStepFrom(promt: seq<WordInfo>, url: string, list: seq<WordInfo>, idx: nat, out: seq<WordInfo>)
    requires idx < |promt| && idx <= |list|
    requires forall x :: x in list ==> exists k :: 0 <= k < idx && (x == promt[k] || x == WithUrl(promt[k], url))
    requires out == (list + [promt[idx]])[idx := WithUrl((list + [promt[idx]])[idx], url)]
    ensures forall x :: x in out ==> exists k :: 0 <= k < |promt| && (x == promt[k] || x == WithUrl(promt[k], url))
  {
    var appended := list + [promt[idx]];
    forall x | x in appended ensures exists k :: 0 <= k < |promt| && (x == promt[k] || x == WithUrl(promt[k], url)) {
      if x !in list { assert x == promt[idx]; }
    }
    forall x | x in out ensures exists k :: 0 <= k < |promt| && (x == promt[k] || x == WithUrl(promt[k], url)) {
      var j :| 0 <= j < |out| && out[j] == x;
      if j != idx {
        assert x == appended[j] && appended[j] in appended;
      } else {
        assert appended[idx] in appended;
        var k :| 0 <= k < |promt| && (appended[idx] == promt[k] || appended[idx] == WithUrl(promt[k], url));
        assert WithUrl(WithUrl(promt[k], url), url) == WithUrl(promt[k], url);
        assert x == WithUrl(promt[k], url);
      }
    }
  }

  /** Once the merge raises on a prefix, it raises on the whole list. */
  lemma {:induction false} MergeNonePersists(promt: seq<WordInfo>, url: string, i: nat)
    requires i <= |promt| && MergeOxford(promt[..i], url).None?
    ensures MergeOxford(promt, url).None?
    decreases |promt| - i
  {
    if i < |promt| {
      assert promt[..i + 1][..i] == promt[..i];
      MergeNonePersists(promt, url, i + 1);
    } else {
      assert promt[..i] == promt;
    }
  }

  /**
   * The duplicate check of the merge never fires: a record without the link key is never equal to
   * a listed one, which has it. So every record is kept, in order, with the link.
   */
  lemma {:induction false} MergeKeepsAll(promt: seq<WordInfo>, url: string)
    requires forall k :: 0 <= k < |promt| ==> promt[k].mp3Url.None?
    ensures MergeOxford(promt, url).Some?
    ensures var list := MergeOxford(promt, url).value;
      |list| == |promt| && forall k :: 0 <= k < |promt| ==> list[k] == WithUrl(promt[k], url)
    decreases |promt|
  {
    if |promt| > 0 {
      var idx := |promt| - 1;
      MergeKeepsAll(promt[..idx], url);
      var list := MergeOxford(promt[..idx], url).value;
      assert promt[idx] !in list by {
        forall k | 0 <= k < |list| ensures list[k] != promt[idx] {
          assert list[k].mp3Url.Some?;
        }
      }
    }
  }

  /** The merge loop as written, appending and updating in place. */
  method MergeLoop(promt: seq<WordInfo>, url: string) returns (r: Option<seq<WordInfo>>)
    ensures r == MergeOxford(promt, url)
  {
    var list: seq<WordInfo> := [];
    for idx := 0 to |promt|
      invariant MergeOxford(promt[..idx], url) == Some(list)
    {
      assert promt[..idx + 1][..idx] == promt[..idx];
      assert promt[..idx + 1][idx] == promt[idx];
      if promt[idx] !in list {
        list := list + [promt[idx]];
        if idx >= |list| {
          MergeNonePersists(promt, url, idx + 1);
          return None;
        }
        list := list[idx := WithUrl(list[idx], url)];
      }
    }
    assert promt[..|promt|] == promt;
    r := Some(list);
  }

  predicate Translated(d: WordInfo) {
    d.ruWord.Some?
  }

  /**
   * The pop loop of `get_word_info` from enumeration index `i` on: a record without translation is
   * popped, and the enumeration moves on to the next index, past the record that slid into its place.
   */
  function PopForward(list: seq<WordInfo>, i: nat): (r: seq<WordInfo>)
    ensures |r| <= |list|
    ensures forall x :: x in r ==> x in list
    decreases |list| - i
  {
    if i >= |list| then list
    else if list[i].ruWord.None? then PopForward(RemoveAt(list, i), i + 1)
    else PopForward(list, i + 1)
  }

  /** The pop step of `get_word_info`, run only on a list of more than one record. */
  function DropUntranslated(list: seq<WordInfo>): (r: seq<WordInfo>)
    ensures Filter(r, Translated) == Filter(list, Translated)
    ensures |list| > 0 ==> |r| > 0
  {
    if |list| > 1 then
      PopForwardKeepsTranslated(list, 0);
      assert |PopForward(list, 0)| > 0 by {
        if list[0].ruWord.None? { PopForwardKeepsPrefix(RemoveAt(list, 0), 1); } else { PopForwardKeepsPrefix(list, 1); }
      }
      PopForward(list, 0)
    else list
  }

  lemma FilterRemoveUntranslated(list: seq<WordInfo>, i: nat)
    requires i < |list| && !Translated(list[i])
    ensures Filter(RemoveAt(list, i), Translated) == Filter(list, Translated)
  {
    var a, b := list[..i], list[i + 1..];
    var c := [list[i]] + b;
    calc {
      Filter(list, Translated);
    == { assert list == a + c; }
      Filter(a + c, Translated);
    == { FilterAppend(a, c, Translated); }
      Filter(a, Translated) + Filter(c, Translated);
    == { assert c[0] == list[i] && c[1..] == b; }
      Filter(a, Translated) + Filter(b, Translated);
    == { FilterAppend(a, b, Translated); }
      Filter(a + b, Translated);
    == { assert RemoveAt(list, i) == a + b; }
      Filter(RemoveAt(list, i), Translated);
    }
  }

  lemma {:induction false} PopForwardKeepsTranslated(list: seq<WordInfo>, i: nat)
    ensures Filter(PopForward(list, i), Translated) == Filter(list, Translated)
    decreases |list| - i
  {
    if i < |list| {
      if list[i].ruWord.None? {
        FilterRemoveUntranslated(list, i);
        PopForwardKeepsTranslated(RemoveAt(list, i), i + 1);
      } else {
        PopForwardKeepsTranslated(list, i + 1);
      }
    }
  }

  /** The enumeration never goes back, so the records before index `i` stay. */
  lemma {:induction false} PopForwardKeepsPrefix(list: seq<WordInfo>, i: nat)
    requires i <= |list|
    ensures |PopForward(list, i)| >= i && PopForward(list, i)[..i] == list[..i]
    decreases |list| - i
  {
    if i < |list| {
      if list[i].ruWord.None? {
        var l2 := RemoveAt(list, i);
        if i + 1 <= |l2| {
          PopForwardKeepsPrefix(l2, i + 1);
          assert l2[..i] == list[..i];
          assert PopForward(list, i)[..i] == PopForward(l2, i + 1)[..i + 1][..i];
        } else {
          assert PopForward(l2, i + 1) == l2;
        }
      } else {
        PopForwardKeepsPrefix(list, i + 1);
        assert PopForward(list, i)[..i] == PopForward(list, i + 1)[..i + 1][..i];
      }
    }
  }

  /** Popping while enumerating skips the record after each one popped: of two in a row, the second stays. */
  lemma PopSkipsNext(a: WordInfo, b: WordInfo, c: WordInfo)
    requires !Translated(a) && !Translated(b) && Translated(c)
    ensures DropUntranslated([a, b, c]) == [b, c]
  {
    assert RemoveAt([a, b, c], 0) == [b, c];
    assert PopForward([b, c], 1) == [b, c];
  }

  /** The pop loop as written: `pop(idx)` inside `enumerate`. */
  method PopUntranslated(list: seq<WordInfo>) returns (r: seq<WordInfo>)
    ensures r == DropUntranslated(list)
  {
    r := list;
    if |r| <= 1 {
      return;
    }
    var i := 0;
    while i < |r|
      invariant PopForward(r, i) == PopForward(list, 0)
      decreases |r| - i
    {
      if r[i].ruWord.None? {
        r := RemoveAt(r, i);
      }
      i := i + 1;
    }
  }

  /** `write_user_mp3`'s file name: none without a link; the transcription counts when it is a non-empty string. */
  function UserMp3Name(enWord: string, url: string, transcription: Option<string>): (r: Option<string>)
    ensures r.None? <==> url == ""
    ensures r.Some? && transcription.Some? && transcription.value != "" ==> r.value == enWord + " " + transcription.value + ".mp3"
    ensures r.Some? && (transcription.None? || transcription.value == "") ==> r.value == Functionality.RemoveLastSpace(enWord) + ".mp3"
  {
    if url == "" then None
    else if transcription.Some? && transcription.value != "" then Some(enWord + " " + transcription.value + ".mp3")
    else
      Functionality.ReverseRemovesLastSpace(enWord);
      Some(Functionality.Reverse(Functionality.RemoveFirstSpace(Functionality.Reverse(enWord))) + ".mp3")
  }

  predicate HasUrl(d: WordInfo) {
    d.mp3Url.Some? && d.mp3Url.value != ""
  }

  /** The audio `get_word_info` writes: only for the first record with a non-empty link, as (link, file name). */
  function FirstAudio(list: seq<WordInfo>): (r: Option<(string, string)>)
    ensures r.None? <==> forall k :: 0 <= k < |list| ==> !HasUrl(list[k])
    ensures r.Some? ==> exists k :: (0 <= k < |list| && HasUrl(list[k]) && (forall j :: 0 <= j < k ==> !HasUrl(list[j]))
      && r.value == (list[k].mp3Url.value, UserMp3Name(list[k].enWord, list[k].mp3Url.value, list[k].enTrans).value))
  {
    match FirstIndex(list, HasUrl)
    case None => None
    case Some(k) => Some((list[k].mp3Url.value, UserMp3Name(list[k].enWord, list[k].mp3Url.value, list[k].enTrans).value))
  }

  /** What `get_word_info` returns, with the audio it writes; `InfoRaised` when the PROMT step raises (the exceptions of the HTTP fetches and the HTML parse are not modelled). */
  datatype WordInfoResult = InfoRaised | Info(records: seq<WordInfo>, audio: Option<(string, string)>)

  function GetWordInfo(enWord: string, posList: seq<string>, translation: Option<map<string, seq<PromtEntry>>>, url: string): (r: WordInfoResult)
    ensures r.InfoRaised? <==> ReceivePromtData(enWord, posList, translation).PromtRaised?
    ensures r.Info? ==> |r.records| > 0
    ensures r.Info? ==> forall k :: 0 <= k < |r.records| ==> r.records[k].enWord == enWord && r.records[k].mp3Url == Some(url)
    ensures r.Info? ==> (r.audio.Some? <==> url != "")
  {
    match ReceivePromtData(enWord, posList, translation)
    case PromtRaised => InfoRaised
    case PromtRecords(promt) =>
      MergeKeepsAll(promt, url);
      var merged := MergeOxford(promt, url).value;
      var list := DropUntranslated(merged);
      assert forall k :: 0 <= k < |list| ==> list[k] in merged by {
        PopForwardSubset(merged, 0);
      }
      assert url != "" ==> HasUrl(list[0]);
      Info(list, FirstAudio(list))
  }

  lemma {:induction false} PopForwardSubset(list: seq<WordInfo>, i: nat)
    ensures forall x :: x in PopForward(list, i) ==> x in list
    decreases |list| - i
  {
    if i < |list| {
      if list[i].ruWord.None? {
        PopForwardSubset(RemoveAt(list, i), i + 1);
      } else {
        PopForwardSubset(list, i + 1);
      }
    }
  }

  /**
   * On what `receive_promt_data` gives, the pop loop removes nothing, and the first record lacks a
   * translation exactly when the result is the sentinel.
   */
  lemma WordInfoOfPromt(enWord: string, posList: seq<string>, translation: Option<map<string, seq<PromtEntry>>>, url: string)
    requires GetWordInfo(enWord, posList, translation, url).Info?
    ensures var rs := GetWordInfo(enWord, posList, translation, url).records;
      rs[0].ruWord.None? <==> rs == [WithUrl(Sentinel(enWord), url)]
  {
    var promt := ReceivePromtData(enWord, posList, translation).records;
    PromtRecordsTranslated(enWord, posList, translation);
    MergeKeepsAll(promt, url);
    var merged := MergeOxford(promt, url).value;
    if promt == [Sentinel(enWord)] {
      assert merged == [WithUrl(Sentinel(enWord), url)];
    } else {
      assert merged[0] == WithUrl(promt[0], url);
      if |merged| > 1 {
        forall k | 0 <= k < |merged| ensures Translated(merged[k]) {
          assert merged[k] == WithUrl(promt[k], url);
        }
        PopForwardTranslated(merged, 0);
      }
    }
  }

  lemma {:induction false} PopForwardTranslated(list: seq<WordInfo>, i: nat)
    requires forall k :: 0 <= k < |list| ==> Translated(list[k])
    ensures PopForward(list, i) == list
    decreases |list| - i
  {
    if i < |list| {
      PopForwardTranslated(list, i + 1);
    }
  }

  /** `get_word_info` as the three loops it runs. */
  method GetWordInfoLoops(enWord: string, posList: seq<string>, translation: Option<map<string, seq<PromtEntry>>>, url: string) returns (r: WordInfoResult)
    ensures r == GetWordInfo(enWord, posList, translation, url)
  {
    var promt := ReceivePromtRecords(enWord, posList, translation);
    if promt.PromtRaised? {
      return InfoRaised;
    }
    MergeKeepsAll(promt.records, url);
    var merged := MergeLoop(promt.records, url);
    var list := PopUntranslated(merged.value);
    var audio := FirstAudioLoop(list);
    r := Info(list, audio);
  }

  /** The last loop of `get_word_info`: the audio of the first record with a link, then `break`. */
  method FirstAudioLoop(list: seq<WordInfo>) returns (audio: Option<(string, string)>)
    ensures audio == FirstAudio(list)
  {
    for k := 0 to |list|
      invariant forall j :: 0 <= j < k ==> !HasUrl(list[j])
    {
      if HasUrl(list[k]) {
        assert FirstIndex(list, HasUrl) == Some(k);
        return Some((list[k].mp3Url.value, UserMp3Name(list[k].enWord, list[k].mp3Url.value, list[k].enTrans).value));
      }
    }
    return None;
  }

  /** The two file-name rules agree when the transcription has visible characters. */
  lemma Mp3NamesAgree(enWord: string, url: string, transcription: string)
    requires url != "" && Functionality.HasContent(transcription)
    ensures UserMp3Name(enWord, url, Some(transcription)) == Some(Functionality.Mp3Name(enWord, transcription))
  {
    assert transcription != "";
  }

  /** On a transcription of blanks they differ, so the bot looks for a file other than the one written. */
  lemma Mp3NamesDisagreeOnBlank()
    ensures UserMp3Name("cat", "u", Some(" ")) == Some("cat  .mp3")
    ensures Functionality.Mp3Name("cat", " ") == "cat.mp3"
  {
    assert !Functionality.HasContent(" ") by {
      assert Functionality.IsSpace(" "[0]);
    }
    assert "cat" + " " + " " + ".mp3" == "cat  .mp3";
    assert Functionality.RemoveLastSpace("cat") == "cat" by {
      assert ' ' !in "cat";
    }
  }

  /** The draft `add_user_word` gets from a record. */
  function DraftOf(d: WordInfo): (r: WordDraft)
    ensures r.enWord == d.enWord && r.ruWord == d.ruWord && r.posName == d.posName && r.mp3Url == d.mp3Url
  {
    WordDraft(d.enWord, d.enTrans, d.mp3Url, d.posName, d.ruWord, d.enExample, d.ruExample)
  }
}
