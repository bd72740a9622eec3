/**
 * `Functionality`: the quiz helpers of the bot. It covers the command names, the letter check
 * for user input, the draw of a target word and three distractors, the layout of the answer
 * keyboard and the texts the bot sends. `random.randint` and `random.shuffle` get their draws
 * as parameters.
 */
module Functionality {
  import opened Common
  import opened RepositoryModel

  // The texts of the three control buttons (`Command`).
  const ADD_WORD: string := "Добавить слово \U{2795}"
  const DELETE_WORD: string := "Удалить слово\U{1F519}"
  const NEXT: string := "Дальше \U{23ED}"

  /** The first line of every hint for a wrong answer; audio and examples look for it. */
  const MISTAKE: string := "Допущена ошибка!"

  // ---------------------------------------------------------------- lower-casing and command names

  /** Upper-case letters of the Latin and Cyrillic alphabets, the scripts the bot deals with. */
  predicate IsUpper(c: char) {
    ('A' <= c <= 'Z') || ('\U{0400}' <= c <= '\U{042F}')
  }

  /** `str.lower()` on one character of those alphabets: А-Я move by 0x20, Ѐ-Џ (with Ё) by 0x50. */
  function LowerChar(c: char): (r: char)
    ensures !IsUpper(r)
    ensures !IsUpper(c) ==> r == c
    ensures IsUpper(c) ==> r != c
  {
    if 'A' <= c <= 'Z' then (c as int + 32) as char
    else if '\U{0410}' <= c <= '\U{042F}' then (c as int + 0x20) as char
    else if '\U{0400}' <= c <= '\U{040F}' then (c as int + 0x50) as char
    else c
  }

  /** `str.lower()`: every upper-case letter replaced by its lower-case one, nothing else touched. */
  function Lower(s: string): (r: string)
    ensures |r| == |s|
    ensures forall i :: 0 <= i < |r| ==> !IsUpper(r[i])
    ensures forall i :: 0 <= i < |s| && !IsUpper(s[i]) ==> r[i] == s[i]
  {
    seq(|s|, i requires 0 <= i < |s| => LowerChar(s[i]))
  }

  lemma LowerIdempotent(s: string)
    ensures Lower(Lower(s)) == Lower(s)
  {
  }

  /** `get_cmd_names`: the three button texts, lower-cased (add, delete, next). */
  function GetCmdNames(): (r: (string, string, string))
    ensures r.0 == Lower(ADD_WORD) && r.1 == Lower(DELETE_WORD) && r.2 == Lower(NEXT)
  {
    (Lower(ADD_WORD), Lower(DELETE_WORD), Lower(NEXT))
  }

  predicate IsCmdName(s: string) {
    var names := GetCmdNames();
    s == names.0 || s == names.1 || s == names.2
  }

  /** The lower-cased names, written out: only the leading capital letter changes. */
  lemma CmdNamesValue()
    ensures GetCmdNames() == ("добавить слово \U{2795}", "удалить слово\U{1F519}", "дальше \U{23ED}")
  {
    LowerCapitalised(ADD_WORD, "добавить слово \U{2795}");
    LowerCapitalised(DELETE_WORD, "удалить слово\U{1F519}");
    LowerCapitalised(NEXT, "дальше \U{23ED}");
  }

  /** A text whose only capital is its first letter lower-cases to that letter lowered and the rest kept. */
  lemma LowerCapitalised(s: string, lowered: string)
    requires |s| == |lowered| > 0 && lowered[0] == LowerChar(s[0]) && s[1..] == lowered[1..]
    requires forall i :: 1 <= i < |s| ==> !IsUpper(s[i])
    ensures Lower(s) == lowered
  {
    forall i | 1 <= i < |s| ensures Lower(s)[i] == lowered[i] {
      assert s[i] == s[1..][i - 1] == lowered[1..][i - 1];
    }
  }

  /** Typing a button's text, in any case, is recognised as that command's name. */
  lemma ButtonTextIsCmdName(s: string)
    requires s == ADD_WORD || s == DELETE_WORD || s == NEXT
    ensures IsCmdName(Lower(s))
  {
  }

  // ---------------------------------------------------------------- check_word_letters

  /** A letter of `string.ascii_letters`. */
  predicate IsAsciiLetter(c: char) {
    ('a' <= c <= 'z') || ('A' <= c <= 'Z')
  }

  /** A character the pattern `[а-яА-ЯёЁ]` matches. */
  predicate IsRussianLetter(c: char) {
    ('\U{0430}' <= c <= '\U{044F}') || ('\U{0410}' <= c <= '\U{042F}') || c == 'ё' || c == 'Ё'
  }

  /**
   * The per-character test: `isalpha()` and the alphabet's condition. Every character either
   * condition accepts is alphabetic, so the `isalpha()` half never changes the answer.
   */
  predicate LetterAllowed(c: char, eng: bool) {
    if eng then IsAsciiLetter(c) else IsRussianLetter(c)
  }

  predicate AllLetters(word: string, eng: bool) {
    forall i :: 0 <= i < |word| ==> LetterAllowed(word[i], eng)
  }

  /** `check_word_letters`: true exactly when every character is a letter of the chosen alphabet. */
  method CheckWordLetters(word: string, eng: bool) returns (ok: bool)
    ensures ok <==> AllLetters(word, eng)
  {
    for i := 0 to |word|
      invariant forall j :: 0 <= j < i ==> LetterAllowed(word[j], eng)
    {
      if !LetterAllowed(word[i], eng) {
        return false;
      }
    }
    return true;
  }

  /** The scenarios of the test suite, plus the empty word (which passes) and a space (which fails). */
  lemma CheckWordLettersExamples()
    ensures AllLetters("test", true) && AllLetters("", true) && AllLetters("", false)
    ensures !AllLetters("тест", true) && !AllLetters("123456", true) && !AllLetters("two words", true)
    ensures AllLetters("тест", false) && AllLetters("ёлка", false)
    ensures !AllLetters("test", false) && !AllLetters("123456", false)
  {
    assert !LetterAllowed("тест"[0], true);
    assert !LetterAllowed("123456"[0], true);
    assert !LetterAllowed("two words"[3], true);
    assert !LetterAllowed("test"[0], false);
    assert !LetterAllowed("123456"[0], false);
  }

  /** No command name passes the English letter check: each holds a space or an emoji. */
  lemma CmdNamesAreNotWords()
    ensures forall s :: IsCmdName(s) ==> !AllLetters(s, true)
  {
    CmdNamesValue();
    assert !LetterAllowed(GetCmdNames().0[8], true);
    assert !LetterAllowed(GetCmdNames().1[0], true);
    assert !LetterAllowed(GetCmdNames().2[0], true);
  }

  // ---------------------------------------------------------------- get_random_words

  /** First index `randint` can return: 1 in the code as written, 0 for a valid list index. */
  const AS_WRITTEN_LOW: nat := 1
  const INTENDED_LOW: nat := 0

  /** `random.randint(low, low + n - 1)` driven by the draw `d`. */
  function Randint(low: nat, n: nat, d: nat): (r: nat)
    requires n > 0
    ensures low <= r < low + n
    ensures r - low == d % n
  {
    low + d % n
  }

  /** The six values returned for a question. */
  datatype Question = Question(
    target: string,
    translation: string,
    others: seq<string>,
    transcription: Option<string>,
    enExample: string,
    ruExample: string)

  /**
   * How `get_random_words` ends: `None` for fewer than 4 records, an IndexError, the model's
   * draws running out before three distractors were found, or a question.
   */
  datatype Draw = TooFewWords | IndexOutOfRange | OutOfDraws | Drawn(q: Question)

  datatype Distractors = Found(words: seq<string>) | NoMoreDraws | BadIndex

  /** `x` may serve as a distractor for the target at `ti`: another record's word, not the target's. */
  predicate Distractor(recs: seq<UserWordView>, ti: nat, tw: string, low: nat, x: string) {
    x != tw && exists j :: low <= j < |recs| && j != ti && recs[j].enWord == x
  }

  /** The `while` loop of `get_random_words`, continued from the distractors found so far. */
  function DrawDistractors(recs: seq<UserWordView>, ti: nat, tw: string, low: nat, draws: seq<nat>, found: seq<string>): (r: Distractors)
    requires |recs| > 0 && |found| <= 3
    ensures r.Found? ==> |r.words| == 3 && r.words[..|found|] == found
    ensures r.Found? ==> forall k :: |found| <= k < 3 ==> Distractor(recs, ti, tw, low, r.words[k])
    ensures low == INTENDED_LOW ==> !r.BadIndex?
    decreases |draws|
  {
    if |found| == 3 then Found(found)
    else if |draws| == 0 then NoMoreDraws
    else
      var oi := Randint(low, |recs|, draws[0]);
      if oi == ti then DrawDistractors(recs, ti, tw, low, draws[1..], found)
      else if oi >= |recs| then BadIndex
      else if recs[oi].enWord == tw then DrawDistractors(recs, ti, tw, low, draws[1..], found)
      else
        var r := DrawDistractors(recs, ti, tw, low, draws[1..], found + [recs[oi].enWord]);
        assert r.Found? ==> r.words[..|found|] == (found + [recs[oi].enWord])[..|found|];
        r
  }

  /** The question is about record `v`: its word, translation, transcription and examples. */
  predicate AsksAbout(q: Question, v: UserWordView) {
    && q.target == v.enWord && q.translation == v.ruWord && q.transcription == v.enTrans
    && q.enExample == v.enExample && q.ruExample == v.ruExample
  }

  /**
   * `get_random_words`, with the index range starting at `low`: the first draw picks the target,
   * the following ones the distractors.
   */
  function RandomWords(recs: seq<UserWordView>, low: nat, draws: seq<nat>): (r: Draw)
    ensures r == TooFewWords <==> |recs| < 4
    ensures r.Drawn? ==> |draws| > 0 && Randint(low, |recs|, draws[0]) < |recs|
    ensures r.Drawn? ==>
      var ti := Randint(low, |recs|, draws[0]);
      && AsksAbout(r.q, recs[ti]) && |r.q.others| == 3
      && forall k :: 0 <= k < 3 ==> Distractor(recs, ti, recs[ti].enWord, low, r.q.others[k])
    ensures low == INTENDED_LOW ==> r != IndexOutOfRange
  {
    if |recs| < 4 then TooFewWords
    else if |draws| == 0 then OutOfDraws
    else
      var ti := Randint(low, |recs|, draws[0]);
      if ti >= |recs| then IndexOutOfRange
      else
        var t := recs[ti];
        match DrawDistractors(recs, ti, t.enWord, low, draws[1..], [])
        case Found(others) => Drawn(Question(t.enWord, t.ruWord, others, t.enTrans, t.enExample, t.ruExample))
        case NoMoreDraws => OutOfDraws
        case BadIndex => IndexOutOfRange
  }

  /** `get_random_words` as a loop over its draws. */
  method GetRandomWords(recs: seq<UserWordView>, low: nat, draws: seq<nat>) returns (r: Draw)
    ensures r == RandomWords(recs, low, draws)
  {
    var n := |recs|;
    if n < 4 {
      return TooFewWords;
    }
    if |draws| == 0 {
      return OutOfDraws;
    }
    var ti := Randint(low, n, draws[0]);
    if ti >= n {
      return IndexOutOfRange;
    }
    var target := recs[ti];
    var others: seq<string> := [];
    var k := 1;
    while |others| < 3
      invariant 1 <= k <= |draws| && |others| <= 3
      invariant DrawDistractors(recs, ti, target.enWord, low, draws[1..], [])
             == DrawDistractors(recs, ti, target.enWord, low, draws[k..], others)
      decreases |draws| - k
    {
      if k == |draws| {
        return OutOfDraws;
      }
      assert draws[k..][1..] == draws[k + 1..];
      var oi := Randint(low, n, draws[k]);
      if oi != ti {
        if oi >= n {
          return IndexOutOfRange;
        }
        var w := recs[oi].enWord;
        if w != target.enWord {
          others := others + [w];
        }
      }
      k := k + 1;
    }
    r := Drawn(Question(target.enWord, target.ruWord, others, target.enTrans, target.enExample, target.ruExample));
  }

  function W(enWord: string): UserWordView {
    UserWordView(enWord, None, None, "noun", "", "", "")
  }

  /**
   * The code as written draws indexes 1..n: on four different words, a first draw of 3 asks for
   * index 4 and raises an IndexError, while the 0-based draw picks the last record.
   */
  lemma AsWrittenIndexOutOfRange()
    ensures RandomWords([W("a"), W("b"), W("c"), W("d")], AS_WRITTEN_LOW, [3, 0, 1, 2]) == IndexOutOfRange
    ensures RandomWords([W("a"), W("b"), W("c"), W("d")], INTENDED_LOW, [3, 0, 1, 2])
         == Drawn(Question("d", "", ["a", "b", "c"], None, "", ""))
  {
    FourRecordDistractors();
    assert [3, 0, 1, 2][1..] == [0, 1, 2];
  }

  /** With "d" as the target at index 3, the draws 0, 1, 2 give the three other words. */
  lemma FourRecordDistractors()
    ensures DrawDistractors([W("a"), W("b"), W("c"), W("d")], 3, "d", 0, [0, 1, 2], []) == Found(["a", "b", "c"])
  {
    var recs := [W("a"), W("b"), W("c"), W("d")];
    assert [0, 1, 2][1..] == [1, 2];
    assert [1, 2][1..] == [2];
    assert DrawDistractors(recs, 3, "d", 0, [], ["a", "b", "c"]) == Found(["a", "b", "c"]);
    assert DrawDistractors(recs, 3, "d", 0, [2], ["a", "b"]) == Found(["a", "b", "c"]);
    assert DrawDistractors(recs, 3, "d", 0, [1, 2], ["a"]) == Found(["a", "b", "c"]);
  }

  /** As written, the first record is never asked and never offered, unless another record shares its word. */
  lemma AsWrittenSkipsFirstRecord(recs: seq<UserWordView>, draws: seq<nat>)
    requires |recs| > 0
    requires forall j :: 1 <= j < |recs| ==> recs[j].enWord != recs[0].enWord
    ensures var r := RandomWords(recs, AS_WRITTEN_LOW, draws);
      r.Drawn? ==> r.q.target != recs[0].enWord && recs[0].enWord !in r.q.others
  {
    var r := RandomWords(recs, AS_WRITTEN_LOW, draws);
    if r.Drawn? {
      forall k | 0 <= k < 3 ensures r.q.others[k] != recs[0].enWord {
        var ti := Randint(AS_WRITTEN_LOW, |recs|, draws[0]);
        assert Distractor(recs, ti, recs[ti].enWord, AS_WRITTEN_LOW, r.q.others[k]);
      }
    }
  }

  /**
   * With 0-based draws (the evident intent) no index is out of range and any record can be the
   * target: the first draw `d` asks about record `d % n`.
   */
  lemma IntendedDrawsInRange(recs: seq<UserWordView>, draws: seq<nat>)
    ensures RandomWords(recs, INTENDED_LOW, draws) != IndexOutOfRange
    ensures var r := RandomWords(recs, INTENDED_LOW, draws);
      r.Drawn? ==> AsksAbout(r.q, recs[draws[0] % |recs|])
  {
  }

  /** Nothing stops a distractor from being drawn twice. */
  lemma DistractorsMayRepeat()
    ensures RandomWords([W("a"), W("b"), W("c"), W("d")], INTENDED_LOW, [0, 1, 1, 1])
         == Drawn(Question("a", "", ["b", "b", "b"], None, "", ""))
  {
    var recs := [W("a"), W("b"), W("c"), W("d")];
    assert DrawDistractors(recs, 0, "a", 0, [1, 1, 1], []) == Found(["b", "b", "b"]) by {
      assert [1, 1, 1][1..] == [1, 1];
      assert [1, 1][1..] == [1];
      assert DrawDistractors(recs, 0, "a", 0, [], ["b", "b", "b"]) == Found(["b", "b", "b"]);
      assert DrawDistractors(recs, 0, "a", 0, [1], ["b", "b"]) == Found(["b", "b", "b"]);
      assert DrawDistractors(recs, 0, "a", 0, [1, 1], ["b"]) == Found(["b", "b", "b"]);
    }
    assert [0, 1, 1, 1][1..] == [1, 1, 1];
  }

  // ---------------------------------------------------------------- setup_buttons

  /** The three control buttons, in the order they follow the answers. */
  const CONTROLS: seq<string> := [NEXT, ADD_WORD, DELETE_WORD]

  /**
   * The remaining turns of `random.shuffle`, which for `i` from the end down to 1 swaps element
   * `i` with element `randbelow(i + 1)`, here `swaps[i] % (i + 1)`: the turns for positions
   * `n - 1` down to 1.
   */
  function ShuffleDown(r: seq<string>, swaps: seq<nat>, n: nat): (out: seq<string>)
    requires n <= |r| <= |swaps|
    ensures |out| == |r| && multiset(out) == multiset(r)
    decreases n
  {
    if n <= 1 then r
    else
      var i := n - 1;
      var j := swaps[i] % (i + 1);
      ShuffleDown(r[i := r[j]][j := r[i]], swaps, i)
  }

  /** `random.shuffle` driven by `swaps`: a rearrangement of `s`. */
  function Shuffled(s: seq<string>, swaps: seq<nat>): (r: seq<string>)
    requires |swaps| >= |s|
    ensures |r| == |s| && multiset(r) == multiset(s)
  {
    ShuffleDown(s, swaps, |s|)
  }

  /** `random.shuffle` as the loop of swaps it performs in place. */
  method Shuffle(s: seq<string>, swaps: seq<nat>) returns (r: seq<string>)
    requires |swaps| >= |s|
    ensures r == Shuffled(s, swaps)
  {
    r := s;
    var n := |r|;
    while n > 1
      invariant 0 <= n <= |r| && |r| == |s|
      invariant ShuffleDown(r, swaps, n) == Shuffled(s, swaps)
    {
      var i := n - 1;
      var j := swaps[i] % (i + 1);
      r := r[i := r[j]][j := r[i]];
      n := i;
    }
  }

  /**
   * The keyboard of `setup_buttons`: the target and the other words in shuffled order, then the
   * control buttons. Buttons are modelled by their texts; the markup is left to Telegram.
   */
  function ButtonLayout(target: string, others: seq<string>, swaps: seq<nat>): (r: seq<string>)
    requires |swaps| > |others|
    ensures |r| == |others| + 4
    ensures multiset(r[..|others| + 1]) == multiset([target] + others)
    ensures r[|others| + 1..] == CONTROLS
  {
    var answers := Shuffled([target] + others, swaps);
    var r := answers + CONTROLS;
    assert r[..|others| + 1] == answers;
    r
  }

  /** With three other words: seven buttons, the four answers first. */
  lemma ButtonLayoutOfQuestion(target: string, others: seq<string>, swaps: seq<nat>)
    requires |others| == 3 && |swaps| > 3
    ensures var b := ButtonLayout(target, others, swaps);
      && |b| == 7 && b[4..] == CONTROLS && multiset(b[..4]) == multiset([target] + others)
      && target in b[..4] && forall x :: x in others ==> x in b[..4]
  {
    var b := ButtonLayout(target, others, swaps);
    assert b[..|others| + 1] == b[..4];
    assert target in multiset([target] + others);
    forall x | x in others ensures x in b[..4] {
      assert x in multiset([target] + others);
    }
  }

  /** `setup_buttons`: the button list it builds and shuffles. */
  method SetupButtons(target: string, others: seq<string>, swaps: seq<nat>) returns (buttons: seq<string>)
    requires |swaps| > |others|
    ensures buttons == ButtonLayout(target, others, swaps)
  {
    var otherButtons: seq<string> := [];
    for k := 0 to |others|
      invariant otherButtons == others[..k]
    {
      otherButtons := otherButtons + [others[k]];
    }
    assert others[..|others|] == others;
    var answers := Shuffle([target] + otherButtons, swaps);
    buttons := answers + [NEXT, ADD_WORD, DELETE_WORD];
  }

  // ---------------------------------------------------------------- show_hint, show_target

  /** `show_hint`: the lines joined by newlines. */
  function ShowHint(lines: seq<string>): (r: string)
    ensures |lines| == 0 ==> r == ""
    ensures |lines| == 1 ==> r == lines[0]
    ensures |lines| > 0 ==> |r| >= |lines[0]| && r[..|lines[0]|] == lines[0]
  {
    if |lines| == 0 then ""
    else if |lines| == 1 then lines[0]
    else lines[0] + "\n" + ShowHint(lines[1..])
  }

  /** `str.split('\n')`: the pieces between newlines (always at least one). */
  function SplitLines(s: string): (r: seq<string>)
    ensures |r| > 0
    decreases |s|
  {
    match NewlineIndex(s)
    case None => [s]
    case Some(i) => [s[..i]] + SplitLines(s[i + 1..])
  }

  /** The position of the first newline, if any. */
  function NewlineIndex(s: string): (r: Option<nat>)
    ensures r.Some? ==> r.value < |s| && s[r.value] == '\n' && forall j :: 0 <= j < r.value ==> s[j] != '\n'
    ensures r.None? <==> OneLine(s)
  {
    FirstIndex(s, (c: char) => c == '\n')
  }

  predicate OneLine(s: string) {
    forall i :: 0 <= i < |s| ==> s[i] != '\n'
  }

  /** Splitting a hint at its newlines gives back its lines, when none of them holds a newline. */
  lemma {:induction false} SplitShowHint(lines: seq<string>)
    requires |lines| > 0
    requires forall k :: 0 <= k < |lines| ==> OneLine(lines[k])
    ensures SplitLines(ShowHint(lines)) == lines
    decreases |lines|
  {
    if |lines| > 1 {
      var rest := ShowHint(lines[1..]);
      SplitFirstLine(lines[0], rest);
      SplitShowHint(lines[1..]);
    }
  }

  /** A line, a newline, then the rest: the split stops at that newline. */
  lemma SplitFirstLine(a: string, rest: string)
    requires OneLine(a)
    ensures SplitLines(a + "\n" + rest) == [a] + SplitLines(rest)
  {
    var s := a + "\n" + rest;
    assert s[|a|] == '\n';
    assert forall j :: 0 <= j < |a| ==> s[j] == a[j];
    assert NewlineIndex(s) == Some(|a|);
    assert s[..|a|] == a && s[|a| + 1..] == rest;
  }

  /** `show_target`: "target -> translation". */
  function ShowTarget(target: string, translation: string): (r: string)
    ensures |r| == |target| + 4 + |translation|
    ensures r[..|target|] == target && r[|target| + 4..] == translation
    ensures r[|target|..|target| + 4] == " -> "
  {
    target + " -> " + translation
  }

  /** The hint for a correct answer, two lines: the praise, then "target -> translation". */
  function CorrectHint(target: string, translation: string): (r: string)
    ensures OneLine(target) && OneLine(translation) ==>
      SplitLines(r) == ["Отлично!\U{2764}", ShowTarget(target, translation)]
  {
    var lines := ["Отлично!\U{2764}", ShowTarget(target, translation)];
    assert OneLine(target) && OneLine(translation) ==> SplitLines(ShowHint(lines)) == lines by {
      if OneLine(target) && OneLine(translation) {
        var st := ShowTarget(target, translation);
        assert forall i :: 0 <= i < |st| ==> st[i] != '\n' by {
          assert forall i :: 0 <= i < |target| ==> st[i] == target[i];
          assert forall i :: |target| + 4 <= i < |st| ==> st[i] == translation[i - |target| - 4];
        }
        SplitShowHint(lines);
      }
    }
    ShowHint(lines)
  }

  /** The hint for a wrong answer, which names the translation again. */
  function MistakeHint(translation: string): (r: string)
    ensures |r| > |MISTAKE| && r[..|MISTAKE|] == MISTAKE
  {
    ShowHint([MISTAKE, "Попробуй ещё раз вспомнить слово \U{1F1F7}\U{1F1FA}" + translation])
  }

  // ---------------------------------------------------------------- get_mp3_audio

  /** `str.isspace()` on one character. */
  predicate IsSpace(c: char) {
    || ('\U{0009}' <= c <= '\U{000D}') || ('\U{001C}' <= c <= '\U{0020}')
    || c == '\U{0085}' || c == '\U{00A0}' || c == '\U{1680}' || ('\U{2000}' <= c <= '\U{200A}')
    || c == '\U{2028}' || c == '\U{2029}' || c == '\U{202F}' || c == '\U{205F}' || c == '\U{3000}'
  }

  /** `s.split()` is non-empty: `s` holds a character that is not white space. */
  predicate HasContent(s: string) {
    exists i :: 0 <= i < |s| && !IsSpace(s[i])
  }

  /** `s[::-1]`. */
  function Reverse(s: string): (r: string)
    ensures |r| == |s| && forall i :: 0 <= i < |s| ==> r[i] == s[|s| - 1 - i]
  {
    seq(|s|, i requires 0 <= i < |s| => s[|s| - 1 - i])
  }

  /** `s.replace(" ", "", 1)`: the first space taken out. */
  function RemoveFirstSpace(s: string): (r: string)
    ensures ' ' !in s ==> r == s
    decreases |s|
  {
    if |s| == 0 then s
    else if s[0] == ' ' then s[1..]
    else [s[0]] + RemoveFirstSpace(s[1..])
  }

  /** `s` with its last space taken out, stated directly. */
  function RemoveLastSpace(s: string): (r: string)
    ensures ' ' !in s ==> r == s
    ensures ' ' in s ==> |r| == |s| - 1
    decreases |s|
  {
    if |s| == 0 then s
    else if s[|s| - 1] == ' ' then s[..|s| - 1]
    else
      var n := |s| - 1;
      assert ' ' in s ==> ' ' in s[..n] by {
        if ' ' in s { var i :| 0 <= i < |s| && s[i] == ' '; assert s[..n][i] == ' '; }
      }
      RemoveLastSpace(s[..n]) + [s[n]]
  }

  lemma ReverseOfLast(s: string)
    requires |s| > 0
    ensures Reverse(s) == [s[|s| - 1]] + Reverse(s[..|s| - 1])
  {
    var r, t := Reverse(s), [s[|s| - 1]] + Reverse(s[..|s| - 1]);
    assert forall i :: 0 <= i < |r| ==> r[i] == t[i];
  }

  lemma ReverseOfFirst(c: char, x: string)
    ensures Reverse([c] + x) == Reverse(x) + [c]
  {
    var r, t := Reverse([c] + x), Reverse(x) + [c];
    assert forall i :: 0 <= i < |r| ==> r[i] == t[i];
  }

  lemma ReverseTwice(s: string)
    ensures Reverse(Reverse(s)) == s
  {
    var r := Reverse(Reverse(s));
    assert forall i :: 0 <= i < |r| ==> r[i] == s[i];
  }

  /** Reversing, dropping the first space and reversing again drops the last space. */
  lemma {:induction false} ReverseRemovesLastSpace(s: string)
    ensures Reverse(RemoveFirstSpace(Reverse(s))) == RemoveLastSpace(s)
    decreases |s|
  {
    if |s| > 0 {
      var n := |s| - 1;
      var front := s[..n];
      ReverseOfLast(s);
      assert Reverse(s)[1..] == Reverse(front);
      if s[n] == ' ' {
        ReverseTwice(front);
      } else {
        ReverseRemovesLastSpace(front);
        var x := RemoveFirstSpace(Reverse(front));
        assert RemoveFirstSpace(Reverse(s)) == [s[n]] + x;
        ReverseOfFirst(s[n], x);
      }
    }
  }

  /** The file name `get_mp3_audio` looks for, for a word and a transcription that is a string. */
  function Mp3Name(word: string, transcription: string): (r: string)
    ensures HasContent(transcription) ==> r == word + " " + transcription + ".mp3"
    ensures !HasContent(transcription) ==> r == RemoveLastSpace(word) + ".mp3"
  {
    if HasContent(transcription) then word + " " + transcription + ".mp3"
    else
      ReverseRemovesLastSpace(word);
      Reverse(RemoveFirstSpace(Reverse(word))) + ".mp3"
  }

  /**
   * What `get_mp3_audio` does: nothing after a wrong answer; an AttributeError when the stored
   * transcription is `None`; otherwise it sends the file of that name.
   */
  datatype Audio = NoAudio | TranscriptionMissing | AudioFile(name: string)

  function Mp3Audio(hint: string, word: string, transcription: Option<string>): (r: Audio)
    ensures r == NoAudio <==> IsSubstring(MISTAKE, hint)
    ensures r == TranscriptionMissing <==> !IsSubstring(MISTAKE, hint) && transcription.None?
    ensures r.AudioFile? ==> transcription.Some? && r.name == Mp3Name(word, transcription.value)
  {
    if IsSubstring(MISTAKE, hint) then NoAudio
    else if transcription.None? then TranscriptionMissing
    else AudioFile(Mp3Name(word, transcription.value))
  }

  // ---------------------------------------------------------------- get_example

  const NO_EN_EXAMPLE: string := "No example"
  const NO_RU_EXAMPLE: string := "Пример отсутствует"
  const EXAMPLE_TITLE: string := "*Пример предложения:*"

  /** `get_example`: the example message, sent only after a right answer and when both examples exist. */
  function ExampleText(hint: string, enExample: string, ruExample: string): (r: Option<string>)
    ensures r.Some? <==> !IsSubstring(MISTAKE, hint) && enExample != NO_EN_EXAMPLE && ruExample != NO_RU_EXAMPLE
    ensures r.Some? && OneLine(enExample) && OneLine(ruExample) ==>
      SplitLines(r.value) == [EXAMPLE_TITLE, "\"" + enExample + "\"", "\"" + ruExample + "\""]
  {
    if IsSubstring(MISTAKE, hint) || enExample == NO_EN_EXAMPLE || ruExample == NO_RU_EXAMPLE then None
    else
      var lines := [EXAMPLE_TITLE, "\"" + enExample + "\"", "\"" + ruExample + "\""];
      assert OneLine(enExample) && OneLine(ruExample) ==> SplitLines(ShowHint(lines)) == lines by {
        if OneLine(enExample) && OneLine(ruExample) {
          QuotedOneLine(enExample);
          QuotedOneLine(ruExample);
          SplitShowHint(lines);
        }
      }
      Some(ShowHint(lines))
  }

  lemma QuotedOneLine(s: string)
    requires OneLine(s)
    ensures OneLine("\"" + s + "\"")
  {
    var q := "\"" + s + "\"";
    assert forall i :: 1 <= i <= |s| ==> q[i] == s[i - 1];
  }
}
