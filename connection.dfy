/**
 * `ConnectionModel`: the decisions of the bot's message handlers. A handler run is a function
 * of the database tables, the bot's session (the pending question of each user and the shared
 * answer keyboard) and the inputs the handler gets from outside (the sender, the clock, the
 * random draws, the scraped pages); it gives the new tables, the new session and the messages
 * sent, in order. An exception that escapes a handler ends the run: what was written before
 * it stays, nothing after it happens.
 */
module ConnectionModel {
  import opened Common
  import opened Structure
  import opened RepositoryModel
  import opened Functionality
  import Parsing

  /** The parts of speech a question may be drawn from. */
  const POS_LIST: seq<string> := ["noun", "verb", "adjective"]

  /** The mark put on a button chosen wrongly. */
  const CROSS: char := '\U{274C}'

  const NOT_FOUND: string := "Введенное " + "слово отсутсвует в базе данных пользователя"
  const ALREADY_KNOWN: string := "Английское слово уже существует"
  const ALREADY_MARKED: string := "Английское слово уже существует в пользовательской БД"
  const UNIDENTIFIED: string := "unidentified"

  /** What the bot does towards Telegram, in order. */
  datatype Event =
    | Greeting                                      // the `hello_text` sent to a new user
    | Say(text: string)                             // a plain message
    | Keyboard(text: string, buttons: seq<string>)  // a message with the answer keyboard
    | SendAudio(name: string)                       // the recording of the target word
    | Example(text: string)                         // the example sentences, in Markdown
    | WordCount(n: nat)                             // "Текущее количество английских слов - n шт."
    | WriteMp3(url: string, name: string)           // the recording saved while a word is looked up
    | AskTranslation                                // the request for a translation; the next message goes to `add_ru_word_callback`

  /**
   * The bot's memory: the six stored fields of each user's pending question, and the texts
   * of the buttons of the last keyboard built (one list shared by every user).
   */
  datatype Session = Session(data: map<int, Question>, buttons: seq<string>)

  /** The reply that a command name is not a word. */
  function CommandHint(w: string): string {
    ShowHint(["Я принимаю только слова.", "Команда " + w + " в расчет не берется."])
  }

  /** The reply to a word with other letters, pointing at the button to press again. */
  function LettersHint(first: string, button: string): string {
    ShowHint([first, "", "Пожалуйста, повторите попытку нажатием на кнопку", Lower(button)])
  }

  function EnglishOnly(button: string): string {
    LettersHint("Слово должно содержать только английские буквы.", button)
  }

  function RussianOnly(): string {
    LettersHint("В этом случае я принимаю только русские буквы.", ADD_WORD)
  }

  function Deleted(w: string): string {
    "Слово \"" + w + "\" удалено"
  }

  // ---------------------------------------------------------------- create_cards

  /**
   * The user part of `create_cards`: a sender with no `users` row is greeted, added and given
   * the developer's words; `false` when `add_user` raises.
   */
  function Enrol(t: Tables, from: UserDraft, now: Timestamp): (r: (Tables, seq<Event>, bool))
    ensures |GetUsers(t, from.userId)| > 0 ==> r == (t, [], true)
    ensures |GetUsers(t, from.userId)| == 0 ==> r.1 == [Greeting]
    ensures !r.2 ==> r.0 == t
    ensures r.0.pos == t.pos && r.0.words == t.words
    ensures Invariant(t) ==> Invariant(r.0)
    ensures Invariant(t) && r.2 ==> |GetUsers(r.0, from.userId)| > 0
    ensures Invariant(t) && r.2 && from.userId != 0 && |GetUsers(t, from.userId)| == 0 ==>
      forall w :: w in t.words && !w.isAddedByUsers ==> ActiveLink(r.0.usersWords, from.userId, w.id)
  {
    if |GetUsers(t, from.userId)| > 0 then (t, [], true)
    else
      var (t1, added) := AddUser(t, from);
      if added == Refused then (t1, [Greeting], false)
      else
        assert Invariant(t) ==> UserRow(from).value in t1.users;
        var t2 := PrepareUserWordPairs(t1, from.userId, now).0;
        assert Invariant(t) ==> UserRow(from).value in GetUsers(t2, from.userId);
        assert Invariant(t) && from.userId != 0 ==>
          forall w :: w in t.words && !w.isAddedByUsers ==> ActiveLink(t2.usersWords, from.userId, w.id) by {
          if Invariant(t) && from.userId != 0 { EnrolSeeds(t, from, now); }
        }
        (t2, [Greeting], true)
  }

  /** A new user, once added, is linked by the seeding to every word the developer added. */
  lemma EnrolSeeds(t: Tables, from: UserDraft, now: Timestamp)
    requires Invariant(t) && from.userId != 0 && |GetUsers(t, from.userId)| == 0 && AddUser(t, from).1 != Refused
    ensures forall w :: w in t.words && !w.isAddedByUsers ==>
      ActiveLink(PrepareUserWordPairs(AddUser(t, from).0, from.userId, now).0.usersWords, from.userId, w.id)
  {
    var t1 := AddUser(t, from).0;
    assert UserRow(from).value in t1.users;
    var k :| 0 <= k < |t1.users| && t1.users[k] == UserRow(from).value;
    assert UserIds(t1.users)[k] == from.userId;
    assert SeedUser(t1, from.userId) == from.userId;
    assert forall j :: 0 <= j < |t.users| ==> t.users[j].userId != from.userId;
    assert !HasPairOf(t1.usersWords, from.userId);
    if w :| w in t.words && !w.isAddedByUsers {
      assert w in GetWords(t1, "", false);
      SeedLinksCurated(t1, from.userId, now);
    }
  }

  /**
   * `create_cards` (also run by the "next" button): the question is drawn from the user's
   * active words of the part of speech `POS_LIST[choice % 3]`. When it is drawn, its six
   * fields are stored for the user, the keyboard is rebuilt and the question is sent. With
   * fewer than four such words, unpacking `None` raises: nothing is sent or stored.
   */
  function CreateCards(t: Tables, s: Session, from: UserDraft, now: Timestamp, choice: nat, draws: seq<nat>, swaps: seq<nat>)
    : (r: (Tables, Session, seq<Event>))
    requires |swaps| >= 4
    ensures |GetUsers(t, from.userId)| > 0 ==> r.0 == t
    ensures |GetUsers(t, from.userId)| == 0 ==> |r.2| > 0 && r.2[0] == Greeting
    ensures |GetUsers(t, from.userId)| > 0 ==> r.2 == [] || r.2[0] != Greeting
    ensures Invariant(t) ==> Invariant(r.0)
    ensures !Asked(r.2) ==> r.1 == s
    ensures forall u :: u in s.data && u != from.userId ==> u in r.1.data && r.1.data[u] == s.data[u]
    ensures Asked(r.2) ==> r.1.data.Keys == s.data.Keys + {from.userId}
  {
    if |GetUsers(t, from.userId)| > 0 then
      var a := Ask(GetUserWords(t, from.userId, Some(POS_LIST[choice % 3])), s, from.userId, draws, swaps);
      (t, a.0, a.1)
    else
      var e := Enrol(t, from, now);
      if !e.2 then (e.0, s, e.1)
      else
        var a := Ask(GetUserWords(e.0, from.userId, Some(POS_LIST[choice % 3])), s, from.userId, draws, swaps);
        (e.0, a.0, [Greeting] + a.1)
  }

  /** The question sent: the translation of the word to pick. */
  function Prompt(translation: string): string {
    "Выбери перевод слова:\n\U{1F1F7}\U{1F1FA} " + translation
  }

  /** The run ended by sending a question. */
  predicate Asked(events: seq<Event>) {
    |events| > 0 && events[|events| - 1].Keyboard?
  }

  /** The question part of `create_cards`, on the records of the chosen part of speech. */
  function Ask(recs: seq<UserWordView>, s: Session, userId: int, draws: seq<nat>, swaps: seq<nat>): (r: (Session, seq<Event>))
    requires |swaps| >= 4
    ensures r.1 == [] || (|r.1| == 1 && r.1[0].Keyboard?)
    ensures r.1 == [] ==> r.0 == s
    ensures forall u :: u in s.data && u != userId ==> u in r.0.data && r.0.data[u] == s.data[u]
    ensures r.1 != [] ==> r.0.data.Keys == s.data.Keys + {userId}
    ensures r.1 != [] ==> userId in r.0.data
    ensures r.1 != [] ==>
      var q := r.0.data[userId];
      && (exists k :: 0 <= k < |recs| && AsksAbout(q, recs[k]))
      && |q.others| == 3 && |r.0.buttons| == 7 && r.0.buttons[4..] == CONTROLS
      && multiset(r.0.buttons[..4]) == multiset([q.target] + q.others)
      && r.1 == [Keyboard(Prompt(q.translation), r.0.buttons)]
    ensures |recs| < 4 ==> r == (s, [])
  {
    match RandomWords(recs, INTENDED_LOW, draws)
    case Drawn(q) =>
      assert AsksAbout(q, recs[Randint(INTENDED_LOW, |recs|, draws[0])]);
      Issue(q, s, userId, swaps)
    case _ => (s, [])
  }

  /** The drawn question is stored for the user, the keyboard rebuilt and the question sent. */
  function Issue(q: Question, s: Session, userId: int, swaps: seq<nat>): (r: (Session, seq<Event>))
    requires |q.others| == 3 && |swaps| >= 4
    ensures userId in r.0.data && r.0.data[userId] == q
    ensures forall u :: u in s.data && u != userId ==> u in r.0.data && r.0.data[u] == s.data[u]
    ensures r.0.data.Keys == s.data.Keys + {userId}
    ensures |r.0.buttons| == 7 && r.0.buttons[4..] == CONTROLS
    ensures multiset(r.0.buttons[..4]) == multiset([q.target] + q.others)
    ensures r.1 == [Keyboard(Prompt(q.translation), r.0.buttons)]
  {
    var b := ButtonLayout(q.target, q.others, swaps);
    ButtonLayoutOfQuestion(q.target, q.others, swaps);
    (Session(s.data[userId := q], b), [Keyboard(Prompt(q.translation), b)])
  }

  /**
   * A question sent is stored for the user: it asks about one of the user's active words of
   * the chosen part of speech, with three other words, and the keyboard holds the four words
   * in some order and then the three controls.
   */
  lemma CreateCardsQuestion(t: Tables, s: Session, from: UserDraft, now: Timestamp, choice: nat, draws: seq<nat>, swaps: seq<nat>)
    requires |swaps| >= 4
    requires Asked(CreateCards(t, s, from, now, choice, draws, swaps).2)
    ensures var r := CreateCards(t, s, from, now, choice, draws, swaps);
      && from.userId in r.1.data
      && var recs := GetUserWords(r.0, from.userId, Some(POS_LIST[choice % 3]));
         var q := r.1.data[from.userId];
         && (exists k :: 0 <= k < |recs| && AsksAbout(q, recs[k]))
         && |q.others| == 3 && |r.1.buttons| == 7 && r.1.buttons[4..] == CONTROLS
         && multiset(r.1.buttons[..4]) == multiset([q.target] + q.others)
         && r.2[|r.2| - 1] == Keyboard(Prompt(q.translation), r.1.buttons)
  {
    var r := CreateCards(t, s, from, now, choice, draws, swaps);
    var t1 := if |GetUsers(t, from.userId)| > 0 then t else Enrol(t, from, now).0;
    var recs := GetUserWords(t1, from.userId, Some(POS_LIST[choice % 3]));
    var a := Ask(recs, s, from.userId, draws, swaps);
    assert r.0 == t1 && r.1 == a.0 && a.1 != [];
    assert r.2[|r.2| - 1] == a.1[0];
  }

  /** With fewer than four active words of the chosen part of speech, no question is sent or stored. */
  lemma CreateCardsTooFewWords(t: Tables, s: Session, from: UserDraft, now: Timestamp, choice: nat, draws: seq<nat>, swaps: seq<nat>)
    requires |swaps| >= 4
    requires var r := CreateCards(t, s, from, now, choice, draws, swaps);
      |GetUserWords(r.0, from.userId, Some(POS_LIST[choice % 3]))| < 4
    ensures var r := CreateCards(t, s, from, now, choice, draws, swaps);
      r.1 == s && !Asked(r.2)
  {
  }

  /** A user is enrolled once: asking for cards again leaves the tables as the first call left them. */
  lemma CreateCardsEnrolsOnce(t: Tables, s: Session, from: UserDraft, now1: Timestamp, now2: Timestamp,
                              choice1: nat, choice2: nat, draws1: seq<nat>, draws2: seq<nat>, swaps1: seq<nat>, swaps2: seq<nat>,
                              s2: Session)
    requires Invariant(t) && |swaps1| >= 4 && |swaps2| >= 4
    ensures var once := CreateCards(t, s, from, now1, choice1, draws1, swaps1).0;
      CreateCards(once, s2, from, now2, choice2, draws2, swaps2).0 == once
  {
    var e := Enrol(t, from, now1);
    if !e.2 {
      assert e.0 == t;
      assert Enrol(t, from, now2).0 == t;
    }
  }

  // ---------------------------------------------------------------- message_reply

  /** How many buttons `buttons[:4]` looks at. */
  function Answers(buttons: seq<string>): (r: nat)
    ensures r <= |buttons| && r <= 4
    ensures |buttons| >= 4 ==> r == 4
  {
    if |buttons| < 4 then |buttons| else 4
  }

  /** The first answer button that reads `text`, if any. */
  function AnswerIndex(buttons: seq<string>, text: string): (r: Option<nat>)
    ensures r.Some? ==> (r.value < Answers(buttons) && buttons[r.value] == text
      && forall j :: 0 <= j < r.value ==> buttons[j] != text)
    ensures r.None? <==> forall j :: 0 <= j < Answers(buttons) ==> buttons[j] != text
  {
    var n := Answers(buttons);
    var r := FirstIndex(buttons[..n], (b: string) => b == text);
    assert forall j :: 0 <= j < n ==> buttons[..n][j] == buttons[j];
    r
  }

  /**
   * What follows the hint: the recording and then the example, each only after a right
   * answer. A stored transcription of `None` raises an AttributeError, which is not caught,
   * so the example is not sent either.
   */
  function AfterHint(q: Question, hint: string): (r: seq<Event>)
    ensures IsSubstring(MISTAKE, hint) ==> r == []
    ensures forall k :: 0 <= k < |r| ==> r[k].SendAudio? || r[k].Example?
  {
    var example := match ExampleText(hint, q.enExample, q.ruExample)
      case Some(x) => [Example(x)]
      case None => [];
    match Mp3Audio(hint, q.target, q.transcription)
    case NoAudio => example
    case TranscriptionMissing => []
    case AudioFile(name) => [SendAudio(name)] + example
  }

  /**
   * `message_reply`: the answer to any other text. The right word gets the praise; one of
   * the first four buttons gets the mistake hint and is marked with a cross (once); with no
   * pending question, or no button with that text, the exception is swallowed and nothing
   * happens. The stored question is only read.
   */
  function Reply(s: Session, userId: int, text: string): (r: (Session, seq<Event>))
    ensures r.0.data == s.data
    ensures userId !in s.data ==> r == (s, [])
    ensures userId in s.data && text == s.data[userId].target ==>
      var q := s.data[userId];
      r.0 == s && |r.1| > 0 && r.1[0] == Keyboard(CorrectHint(q.target, q.translation), s.buttons)
    ensures |r.0.buttons| == |s.buttons| && r.0.buttons[Answers(s.buttons)..] == s.buttons[Answers(s.buttons)..]
    ensures forall i :: 0 <= i < |s.buttons| ==>
      r.0.buttons[i] == s.buttons[i]
      || (i < Answers(s.buttons) && s.buttons[i] == text && CROSS !in text && r.0.buttons[i] == text + [CROSS]
          && forall j :: 0 <= j < i ==> s.buttons[j] != text)
    ensures userId in s.data && text != s.data[userId].target ==>
      (|r.1| > 0 <==> exists i :: 0 <= i < Answers(s.buttons) && s.buttons[i] == text)
      && (|r.1| > 0 ==> r.1 == [Keyboard(MistakeHint(s.data[userId].translation), r.0.buttons)])
  {
    if userId !in s.data then (s, [])
    else
      var q := s.data[userId];
      if text == q.target then
        var hint := CorrectHint(q.target, q.translation);
        (s, [Keyboard(hint, s.buttons)] + AfterHint(q, hint))
      else
        var n := Answers(s.buttons);
        match AnswerIndex(s.buttons, text)
        case None => (s, [])
        case Some(i) =>
          var b := if CROSS in text then s.buttons else s.buttons[i := text + [CROSS]];
          var hint := MistakeHint(q.translation);
          assert IsSubstring(MISTAKE, hint);
          assert b[n..] == s.buttons[n..];
          (s.(buttons := b), [Keyboard(hint, b)])
  }

  /** A wrong answer marks its button; giving it again finds no button with that text and does nothing. */
  lemma ReplyMarksOnce(s: Session, userId: int, text: string)
    requires userId in s.data && text != s.data[userId].target && CROSS !in text
    requires Distinct(s.buttons)
    requires exists i :: 0 <= i < Answers(s.buttons) && s.buttons[i] == text
    ensures var once := Reply(s, userId, text).0;
      once != s && Reply(once, userId, text) == (once, [])
  {
    var once := Reply(s, userId, text).0;
    var i :| 0 <= i < Answers(s.buttons) && s.buttons[i] == text;
    assert once.buttons[i] == text + [CROSS];
    assert CROSS in once.buttons[i];
    forall j | 0 <= j < Answers(once.buttons) ensures once.buttons[j] != text {
      if j != i {
        assert s.buttons[j] != s.buttons[i];
      }
    }
  }

  /** A question just drawn is answered with the praise naming its target and translation. */
  lemma CardsThenRightAnswer(t: Tables, s: Session, from: UserDraft, now: Timestamp, choice: nat, draws: seq<nat>, swaps: seq<nat>)
    requires |swaps| >= 4
    requires CreateCards(t, s, from, now, choice, draws, swaps).1 != s
    ensures var s1 := CreateCards(t, s, from, now, choice, draws, swaps).1;
      var q := s1.data[from.userId];
      var r := Reply(s1, from.userId, q.target);
      r.0 == s1 && r.1[0] == Keyboard(CorrectHint(q.target, q.translation), s1.buttons)
  {
  }

  // ---------------------------------------------------------------- delete_word_callback

  /**
   * `delete_word_callback`: the lower-cased text is removed from the user's words unless it is
   * a command name or holds a letter that is not English; the reply says whether the number
   * of the user's active words went down.
   */
  function DeleteWordCallback(t: Tables, userId: int, text: string, now: Timestamp): (r: (Tables, seq<Event>))
    ensures var w := Lower(text);
      (IsCmdName(w) || !AllLetters(w, true)) ==> r.0 == t && |r.1| == 1
    ensures var w := Lower(text);
      !IsCmdName(w) && AllLetters(w, true) ==> r.0 == RemoveUserWord(t, userId, w, now)
    ensures |r.1| > 0
    ensures var w := Lower(text);
      !IsCmdName(w) && AllLetters(w, true) ==>
        r.1[0] == (if |GetUserWords(r.0, userId, None)| == |GetUserWords(t, userId, None)| then Say(NOT_FOUND) else Say(Deleted(w)))
    ensures Invariant(t) ==> Invariant(r.0)
  {
    var w := Lower(text);
    var before := GetUserWords(t, userId, None);
    if IsCmdName(w) then (t, [Say(CommandHint(w))])
    else if !AllLetters(w, true) then (t, [Say(EnglishOnly(DELETE_WORD))])
    else
      var t1 := RemoveUserWord(t, userId, w, now);
      if |GetUserWords(t1, userId, None)| == |before| then (t1, [Say(NOT_FOUND)])
      else
        match GetUniqueUserWords(t1, userId)
        case None => (t1, [Say(Deleted(w))])
        case Some(words) => (t1, [Say(Deleted(w)), WordCount(|words|)])
  }

  /**
   * The delete reply is right: it reports the removal exactly when the user had the word,
   * and afterwards the user has it no more.
   */
  lemma DeleteReportsRemoval(t: Tables, userId: int, text: string, now: Timestamp)
    requires Invariant(t) && text != ""
    requires !IsCmdName(Lower(text)) && AllLetters(Lower(text), true)
    ensures var w := Lower(text);
      var r := DeleteWordCallback(t, userId, text, now);
      && (r.1[0] == Say(Deleted(w)) <==> UserHasEnWord(t, userId, w))
      && (r.1[0] == Say(NOT_FOUND) <==> !UserHasEnWord(t, userId, w))
      && !UserHasEnWord(r.0, userId, w)
  {
    var w := Lower(text);
    RemoveUserWordCount(t, userId, w, now);
    RemoveUserWordHides(t, userId, w, now, w);
    assert Deleted(w) != NOT_FOUND by {
      assert Deleted(w)[0] == 'С';
      assert NOT_FOUND[0] == 'В';
    }
  }

  // ---------------------------------------------------------------- add_en_word_callback

  /** The loop of `add_en_word_callback` over the records; `false` once an `add_user_word` raises. */
  function AddEach(t: Tables, userId: int, records: seq<Parsing.WordInfo>, now: Timestamp): (r: (Tables, bool))
    ensures r.0.pos == t.pos && r.0.users == t.users
    ensures Invariant(t) ==> Invariant(r.0)
    ensures |GetUsers(t, userId)| == 0 ==> r == (t, true)
    decreases |records|
  {
    if |records| == 0 then (t, true)
    else
      var n := |records| - 1;
      var (t1, ok) := AddEach(t, userId, records[..n], now);
      if !ok then (t1, false)
      else
        var (t2, added) := AddUserWord(t1, userId, Parsing.DraftOf(records[n]), now);
        (t2, added != Refused)
  }

  /** The loop takes no word away from the user. */
  lemma {:induction false} AddEachKeepsHeld(t: Tables, userId: int, records: seq<Parsing.WordInfo>, now: Timestamp, x: string)
    requires UserHasEnWord(t, userId, x)
    ensures UserHasEnWord(AddEach(t, userId, records, now).0, userId, x)
    decreases |records|
  {
    if |records| > 0 {
      var n := |records| - 1;
      AddEachKeepsHeld(t, userId, records[..n], now, x);
      var t1 := AddEach(t, userId, records[..n], now);
      if t1.1 {
        AddUserWordKeepsHeld(t1.0, userId, Parsing.DraftOf(records[n]), now, x);
      }
    }
  }

  /**
   * What the loop stores: when no `add_user_word` raised, the English word of every record
   * whose part of speech the table holds is the user's.
   */
  lemma {:induction false} AddEachStores(t: Tables, userId: int, records: seq<Parsing.WordInfo>, now: Timestamp)
    requires Invariant(t) && userId in UserIds(t.users)
    ensures var r := AddEach(t, userId, records, now);
      r.1 ==> forall k :: 0 <= k < |records| && records[k].enWord != "" && HasPosNamed(t.pos, records[k].posName) ==>
        UserHasEnWord(r.0, userId, records[k].enWord)
    decreases |records|
  {
    if |records| > 0 {
      var n := |records| - 1;
      AddEachStores(t, userId, records[..n], now);
      AddEachLast(t, userId, records, now);
      AddEachStep(AddEach(t, userId, records[..n], now), AddEach(t, userId, records, now), userId, records, t.pos);
    }
  }

  /** The last `add_user_word` of the loop loses nothing and, when it does not raise, stores its record. */
  lemma AddEachLast(t: Tables, userId: int, records: seq<Parsing.WordInfo>, now: Timestamp)
    requires |records| > 0 && Invariant(t) && userId in UserIds(t.users)
    ensures var t1 := AddEach(t, userId, records[..|records| - 1], now);
      var r := AddEach(t, userId, records, now);
      var last := records[|records| - 1];
      && (r.1 ==> t1.1)
      && (t1.1 && r.1 ==>
            && (forall x :: UserHasEnWord(t1.0, userId, x) ==> UserHasEnWord(r.0, userId, x))
            && (last.enWord != "" && HasPosNamed(t.pos, last.posName) ==> UserHasEnWord(r.0, userId, last.enWord)))
  {
    var n := |records| - 1;
    var t1 := AddEach(t, userId, records[..n], now);
    if t1.1 {
      var d := Parsing.DraftOf(records[n]);
      assert Invariant(t1.0) && t1.0.pos == t.pos && t1.0.users == t.users;
      AddUserWordStep(t1.0, userId, d, now);
    }
  }

  /** One pass of the loop: what was stored stays stored, and the last record is stored too. */
  lemma AddEachStep(t1: (Tables, bool), r: (Tables, bool), userId: int, records: seq<Parsing.WordInfo>, pos: seq<Pos>)
    requires |records| > 0
    requires var front := records[..|records| - 1];
      t1.1 ==> forall k :: 0 <= k < |front| && front[k].enWord != "" && HasPosNamed(pos, front[k].posName) ==>
        UserHasEnWord(t1.0, userId, front[k].enWord)
    requires var last := records[|records| - 1];
      && (r.1 ==> t1.1)
      && (t1.1 && r.1 ==>
            && (forall x :: UserHasEnWord(t1.0, userId, x) ==> UserHasEnWord(r.0, userId, x))
            && (last.enWord != "" && HasPosNamed(pos, last.posName) ==> UserHasEnWord(r.0, userId, last.enWord)))
    ensures r.1 ==> forall k :: 0 <= k < |records| && records[k].enWord != "" && HasPosNamed(pos, records[k].posName) ==>
      UserHasEnWord(r.0, userId, records[k].enWord)
  {
    var n := |records| - 1;
    if r.1 {
      forall k | 0 <= k < |records| && records[k].enWord != "" && HasPosNamed(pos, records[k].posName)
        ensures UserHasEnWord(r.0, userId, records[k].enWord)
      {
        if k < n {
          assert records[..n][k] == records[k];
        }
      }
    }
  }

  /** Once one `add_user_word` of the loop raises, the rest of the records are not stored. */
  lemma {:induction false} AddEachStops(t: Tables, userId: int, records: seq<Parsing.WordInfo>, now: Timestamp, k: nat)
    requires k <= |records| && !AddEach(t, userId, records[..k], now).1
    ensures AddEach(t, userId, records, now) == AddEach(t, userId, records[..k], now)
    decreases |records| - k
  {
    if k < |records| {
      assert records[..k + 1][..k] == records[..k];
      AddEachStops(t, userId, records, now, k + 1);
    } else {
      assert records[..k] == records;
    }
  }

  /** The audio `get_word_info` saves, as an event. */
  function Saved(audio: Option<(string, string)>): (r: seq<Event>)
    ensures forall e :: e in r ==> e.WriteMp3?
  {
    if audio.Some? then [WriteMp3(audio.value.0, audio.value.1)] else []
  }

  /**
   * `add_en_word_callback`: the lower-cased text is looked up (the parsed translation page and
   * the Oxford link are inputs) and added to the user's words. Command names, a text with a
   * cross (a marked button), words with other letters and words the user has already are
   * refused with a reply. A user with no active word cannot add one: `in None` raises.
   * When the page has no translation, the sentinel record is stored with an empty
   * translation and the translation is asked for.
   */
  function AddEnWordCallback(t: Tables, userId: int, text: string, now: Timestamp,
                             translation: Option<map<string, seq<Parsing.PromtEntry>>>, url: string)
    : (r: (Tables, seq<Event>))
    ensures var w := Lower(text);
      (IsCmdName(w) || CROSS in w || !AllLetters(w, true)) ==> r.0 == t && |r.1| == 1 && r.1[0].Say?
    ensures GetUniqueUserWords(t, userId).None? ==> r.0 == t
    ensures Invariant(t) ==> Invariant(r.0)
    ensures r.0.pos == t.pos && r.0.users == t.users
    ensures forall e :: e in r.1 && e.WordCount? ==>
      GetUniqueUserWords(r.0, userId).Some? && e.n == |GetUniqueUserWords(r.0, userId).value|
  {
    var w := Lower(text);
    if IsCmdName(w) then (t, [Say(CommandHint(w))])
    else if CROSS in w then (t, [Say(ALREADY_MARKED)])
    else if !AllLetters(w, true) then (t, [Say(EnglishOnly(ADD_WORD))])
    else
      var existing := GetUniqueUserWords(t, userId);
      if existing.None? then (t, [])
      else if w in existing.value then (t, [Say(ALREADY_KNOWN)])
      else AddNewWord(t, userId, w, now, translation, url)
  }

  /**
   * A new word: `get_word_info` looks it up (an exception there ends the run) and saves its
   * recording; then it is stored, with or without its translation.
   */
  function AddNewWord(t: Tables, userId: int, w: string, now: Timestamp,
                      translation: Option<map<string, seq<Parsing.PromtEntry>>>, url: string)
    : (r: (Tables, seq<Event>))
    ensures Invariant(t) ==> Invariant(r.0)
    ensures r.0.pos == t.pos && r.0.users == t.users
    ensures forall e :: e in r.1 ==> e.WriteMp3? || e.WordCount? || e == AskTranslation
    ensures forall e :: e in r.1 && e.WordCount? ==>
      GetUniqueUserWords(r.0, userId).Some? && e.n == |GetUniqueUserWords(r.0, userId).value|
  {
    match Parsing.GetWordInfo(w, POS_LIST, translation, url)
    case InfoRaised => (t, [])
    case Info(records, audio) =>
      var u := StoreInfo(t, userId, records, now);
      assert forall e :: e in Saved(audio) + u.1 ==> e in Saved(audio) || e in u.1;
      (u.0, Saved(audio) + u.1)
  }

  /** The records found are stored, with the translation asked for when the page had none. */
  function StoreInfo(t: Tables, userId: int, records: seq<Parsing.WordInfo>, now: Timestamp): (r: (Tables, seq<Event>))
    requires |records| > 0
    ensures Invariant(t) ==> Invariant(r.0)
    ensures r.0.pos == t.pos && r.0.users == t.users
    ensures forall e :: e in r.1 ==> e.WordCount? || e == AskTranslation
    ensures forall e :: e in r.1 && e.WordCount? ==>
      GetUniqueUserWords(r.0, userId).Some? && e.n == |GetUniqueUserWords(r.0, userId).value|
  {
    if records[0].ruWord.None? then StoreUntranslated(t, userId, records, now)
    else StoreTranslated(t, userId, records, now)
  }

  /** The page had no translation: the (only) record is stored with an empty one, and the translation is asked for. */
  function StoreUntranslated(t: Tables, userId: int, records: seq<Parsing.WordInfo>, now: Timestamp): (r: (Tables, seq<Event>))
    requires |records| > 0
    ensures r.0.pos == t.pos && r.0.users == t.users
    ensures Invariant(t) ==> Invariant(r.0)
    ensures r.1 == [] || r.1 == [AskTranslation]
    ensures r.1 == [AskTranslation] <==> AddUserWord(t, userId, Parsing.DraftOf(records[|records| - 1].(ruWord := Some(""))), now).1 != Refused
    ensures r.0 == AddUserWord(t, userId, Parsing.DraftOf(records[|records| - 1].(ruWord := Some(""))), now).0
  {
    var d := records[|records| - 1].(ruWord := Some(""));
    var (t1, added) := AddUserWord(t, userId, Parsing.DraftOf(d), now);
    (t1, if added == Refused then [] else [AskTranslation])
  }

  /** Every record is stored; the new number of words is reported when the user's word list grew. */
  function StoreTranslated(t: Tables, userId: int, records: seq<Parsing.WordInfo>, now: Timestamp): (r: (Tables, seq<Event>))
    ensures r.0.pos == t.pos && r.0.users == t.users
    ensures Invariant(t) ==> Invariant(r.0)
    ensures r.1 == [] || (|r.1| == 1 && r.1[0].WordCount?
      && GetUniqueUserWords(r.0, userId).Some? && r.1[0].n == |GetUniqueUserWords(r.0, userId).value|
      && |GetUserWords(r.0, userId, None)| != |GetUserWords(t, userId, None)|)
  {
    var (t1, ok) := AddEach(t, userId, records, now);
    if !ok || |GetUserWords(t1, userId, None)| == |GetUserWords(t, userId, None)| then (t1, [])
    else (t1, CountReport(t1, userId))
  }

  /** No `add_user_word` that `StoreInfo` makes raises. */
  predicate StoreSucceeds(t: Tables, userId: int, records: seq<Parsing.WordInfo>, now: Timestamp)
    requires |records| > 0
  {
    if records[0].ruWord.None? then
      AddUserWord(t, userId, Parsing.DraftOf(records[|records| - 1].(ruWord := Some(""))), now).1 != Refused
    else AddEach(t, userId, records, now).1
  }

  /**
   * When nothing raises, the English word of the records ends up among the user's words
   * (with or without its translation), provided its part of speech is in the table.
   */
  lemma StoreInfoStores(t: Tables, userId: int, records: seq<Parsing.WordInfo>, now: Timestamp)
    requires |records| > 0 && Invariant(t) && userId in UserIds(t.users)
    requires forall k :: 0 <= k < |records| ==> records[k].enWord != "" && HasPosNamed(t.pos, records[k].posName)
    requires StoreSucceeds(t, userId, records, now)
    ensures UserHasEnWord(StoreInfo(t, userId, records, now).0, userId, records[|records| - 1].enWord)
  {
    var last := records[|records| - 1];
    if records[0].ruWord.None? {
      AddUserWordHolds(t, userId, Parsing.DraftOf(last.(ruWord := Some(""))), now);
    } else {
      AddEachStores(t, userId, records, now);
    }
  }

  /**
   * `add_en_word_callback` stores the word: a new English word that passes the checks, whose
   * lookup raises nothing and whose `add_user_word` calls raise nothing, is a word of the user
   * afterwards, as is a word the user had already.
   */
  lemma AddEnWordStores(t: Tables, userId: int, text: string, now: Timestamp,
                        translation: Option<map<string, seq<Parsing.PromtEntry>>>, url: string)
    requires Invariant(t) && text != ""
    requires !IsCmdName(Lower(text)) && CROSS !in Lower(text) && AllLetters(Lower(text), true)
    requires GetUniqueUserWords(t, userId).Some?
    requires var info := Parsing.GetWordInfo(Lower(text), POS_LIST, translation, url);
      && info.Info?
      && (forall k :: 0 <= k < |info.records| ==> HasPosNamed(t.pos, info.records[k].posName))
      && StoreSucceeds(t, userId, info.records, now)
    ensures UserHasEnWord(AddEnWordCallback(t, userId, text, now, translation, url).0, userId, Lower(text))
  {
    var w := Lower(text);
    var existing := GetUniqueUserWords(t, userId).value;
    UniqueWordsKnownUser(t, userId);
    AddEnWordPaths(t, userId, text, now, translation, url);
    if w !in existing {
      var records := Parsing.GetWordInfo(w, POS_LIST, translation, url).records;
      assert |w| > 0 && forall k :: 0 <= k < |records| ==> records[k].enWord == w;
      StoreInfoStores(t, userId, records, now);
      assert records[|records| - 1].enWord == w;
    } else {
      assert UserHasEnWord(t, userId, w);
    }
  }

  /** Past the checks, a known word leaves the tables alone and a new one goes to `StoreInfo`. */
  lemma AddEnWordPaths(t: Tables, userId: int, text: string, now: Timestamp,
                       translation: Option<map<string, seq<Parsing.PromtEntry>>>, url: string)
    requires !IsCmdName(Lower(text)) && CROSS !in Lower(text) && AllLetters(Lower(text), true)
    requires GetUniqueUserWords(t, userId).Some?
    ensures var w := Lower(text);
      var r := AddEnWordCallback(t, userId, text, now, translation, url);
      var info := Parsing.GetWordInfo(w, POS_LIST, translation, url);
      && (w in GetUniqueUserWords(t, userId).value ==> r.0 == t)
      && (w !in GetUniqueUserWords(t, userId).value && info.Info? ==> r.0 == StoreInfo(t, userId, info.records, now).0)
  {
  }

  /** A user the unique-words query finds is a row of `users`, by the foreign key. */
  lemma UniqueWordsKnownUser(t: Tables, userId: int)
    requires Invariant(t) && GetUniqueUserWords(t, userId).Some?
    ensures userId in UserIds(t.users)
  {
    var x := GetUniqueUserWords(t, userId).value[0];
    assert UserHasEnWord(t, userId, x);
    var i, j :| 0 <= i < |t.usersWords| && 0 <= j < |t.words| && t.usersWords[i].userId == userId && t.usersWords[i].isAdded
      && t.words[j].id == t.usersWords[i].wordId && t.words[j].enWord == x;
  }

  /** A word the user already has is refused before any page is read, and nothing changes. */
  lemma AddEnKnownWord(t: Tables, userId: int, text: string, now: Timestamp,
                       translation: Option<map<string, seq<Parsing.PromtEntry>>>, url: string)
    requires Invariant(t)
    requires !IsCmdName(Lower(text)) && CROSS !in Lower(text) && AllLetters(Lower(text), true)
    requires UserHasEnWord(t, userId, Lower(text))
    ensures AddEnWordCallback(t, userId, text, now, translation, url) == (t, [Say(ALREADY_KNOWN)])
  {
  }

  // ---------------------------------------------------------------- add_ru_word_callback

  /** The `data_dict` of `add_ru_word_callback`: the translation typed, every other field empty. */
  function RuDraft(enWord: string, ruWord: string): (r: WordDraft)
    ensures r.enWord == enWord && r.ruWord == Some(ruWord) && r.posName == UNIDENTIFIED
  {
    WordDraft(enWord, Some(""), Some(""), UNIDENTIFIED, Some(ruWord), Some(""), Some(""))
  }

  /**
   * `add_ru_word_callback`: the translation typed for the English word of the user's last
   * active row. In Russian letters it is stored; otherwise the user's rows for that word and
   * the word itself are deleted. With no active row, `user_database[-1]` raises.
   */
  function AddRuWordCallback(t: Tables, userId: int, text: string, now: Timestamp): (r: (Tables, seq<Event>))
    ensures |GetUserWords(t, userId, None)| == 0 ==> r == (t, [])
    ensures Invariant(t) ==> Invariant(r.0)
    ensures r.0.pos == t.pos && r.0.users == t.users
    ensures var db := GetUserWords(t, userId, None);
      |db| > 0 && AllLetters(Lower(text), false) ==>
      r.0 == AddUserWord(t, userId, RuDraft(db[|db| - 1].enWord, Lower(text)), now).0
    ensures var db := GetUserWords(t, userId, None);
      |db| > 0 && !AllLetters(Lower(text), false) && Invariant(t) ==>
      forall x :: x in r.0.usersWords ==>
        x.userId != userId || forall w :: w in t.words && w.enWord == db[|db| - 1].enWord ==> w.id != x.wordId
  {
    var ru := Lower(text);
    var db := GetUserWords(t, userId, None);
    if |db| == 0 then (t, [])
    else
      var last := db[|db| - 1].enWord;
      if AllLetters(ru, false) then StoreTranslation(t, userId, RuDraft(last, ru), now)
      else DropWord(t, userId, RuDraft(last, ru))
  }

  /** The translation is stored, and the new number of words reported. */
  function StoreTranslation(t: Tables, userId: int, d: WordDraft, now: Timestamp): (r: (Tables, seq<Event>))
    ensures r.0 == AddUserWord(t, userId, d, now).0
    ensures Invariant(t) ==> Invariant(r.0)
    ensures forall k :: 0 <= k < |r.1| ==> (r.1[k].WordCount?
      && GetUniqueUserWords(r.0, userId).Some? && r.1[k].n == |GetUniqueUserWords(r.0, userId).value|)
  {
    var added := AddUserWord(t, userId, d, now);
    (added.0, if added.1 == Refused then [] else CountReport(added.0, userId))
  }

  /** The message with the user's number of distinct English words; none when the query finds no row. */
  function CountReport(t: Tables, userId: int): (r: seq<Event>)
    ensures |r| <= 1 && (r == [] <==> GetUniqueUserWords(t, userId).None?)
    ensures forall k :: 0 <= k < |r| ==> (r[k].WordCount?
      && GetUniqueUserWords(t, userId).Some? && r[k].n == |GetUniqueUserWords(t, userId).value|)
  {
    match GetUniqueUserWords(t, userId)
    case None => []
    case Some(words) => [WordCount(|words|)]
  }

  /** The translation was refused: the user's rows for the word go, then the word (the foreign key may refuse that). */
  function DropWord(t: Tables, userId: int, d: WordDraft): (r: (Tables, seq<Event>))
    ensures r.0.pos == t.pos && r.0.users == t.users
    ensures Invariant(t) ==> Invariant(r.0)
    ensures Invariant(t) ==> forall x :: x in r.0.usersWords ==>
      x.userId != userId || forall w :: w in t.words && w.enWord == d.enWord ==> w.id != x.wordId
  {
    var t1 := DeleteUserWordPair(t, userId, d.enWord);
    var (t2, deleted) := DeleteWord(t1, d);
    (t2, if deleted == Refused then [] else [Say(RussianOnly())])
  }
}

/**
 * The bot's handlers over the live database and the bot's memory: each method sends the
 * messages, and leaves the database and the session, that its `ConnectionModel` function
 * describes.
 */
module Connection {
  import opened Common
  import opened Structure
  import opened RepositoryModel
  import opened Functionality
  import opened ConnectionModel
  import Parsing
  import Repository

  class Bot {
    const repo: Repository.DBRepository
    /** The stored fields of each user's pending question (`bot.retrieve_data`). */
    var data: map<int, Question>
    /** The module-level `buttons` of the last keyboard built. */
    var buttons: seq<string>

    ghost predicate Valid()
      reads repo.db
    {
      repo.Valid()
    }

    function State(): Session
      reads this
    {
      Session(data, buttons)
    }

    constructor (repo: Repository.DBRepository)
      requires repo.Valid()
      ensures this.repo == repo && State() == Session(map[], []) && Valid()
    {
      this.repo := repo;
      data := map[];
      buttons := [];
    }

    /** The user part of `create_cards`. */
    method Enrol(from: UserDraft, now: Timestamp) returns (greet: seq<Event>, enrolled: bool)
      requires Valid()
      modifies repo.db
      ensures (repo.db.State(), greet, enrolled) == ConnectionModel.Enrol(old(repo.db.State()), from, now)
      ensures Valid()
    {
      var userData := repo.GetUsers(from.userId);
      if |userData| > 0 {
        return [], true;
      }
      greet := [Greeting];
      var added := repo.AddUser(from);
      if added == Refused {
        return greet, false;
      }
      var seeded := repo.PrepareUserWordPairs(from.userId, now);
      enrolled := true;
    }

    /** The question part of `create_cards`. */
    method Ask(recs: seq<UserWordView>, userId: int, draws: seq<nat>, swaps: seq<nat>) returns (asked: seq<Event>)
      requires |swaps| >= 4
      modifies this
      ensures (State(), asked) == ConnectionModel.Ask(recs, old(State()), userId, draws, swaps)
    {
      asked := [];
      var drawn := GetRandomWords(recs, INTENDED_LOW, draws);
      if drawn.Drawn? {
        var q := drawn.q;
        buttons := SetupButtons(q.target, q.others, swaps);
        data := data[userId := q];
        asked := [Keyboard(Prompt(q.translation), buttons)];
      }
    }

    method CreateCards(from: UserDraft, now: Timestamp, choice: nat, draws: seq<nat>, swaps: seq<nat>) returns (events: seq<Event>)
      requires Valid() && |swaps| >= 4
      modifies this, repo.db
      ensures (repo.db.State(), State(), events)
           == ConnectionModel.CreateCards(old(repo.db.State()), old(State()), from, now, choice, draws, swaps)
      ensures Valid()
    {
      var known := repo.GetUsers(from.userId);
      ghost var t := repo.db.State();
      if |known| == 0 {
        var greet, enrolled := Enrol(from, now);
        if !enrolled {
          return greet;
        }
        assert greet == [Greeting];
        var recs := repo.GetUserWords(from.userId, Some(POS_LIST[choice % 3]));
        var asked := Ask(recs, from.userId, draws, swaps);
        events := greet + asked;
      } else {
        var recs := repo.GetUserWords(from.userId, Some(POS_LIST[choice % 3]));
        assert recs == GetUserWords(t, from.userId, Some(POS_LIST[choice % 3]));
        events := Ask(recs, from.userId, draws, swaps);
      }
    }

    method Reply(userId: int, text: string) returns (events: seq<Event>)
      modifies this
      ensures (State(), events) == ConnectionModel.Reply(old(State()), userId, text)
    {
      events := [];
      if userId !in data {
        return;
      }
      var q := data[userId];
      var hint: string;
      if text == q.target {
        hint := CorrectHint(q.target, q.translation);
      } else {
        var n := Answers(buttons);
        var k := 0;
        while k < n && buttons[k] != text
          invariant 0 <= k <= n
          invariant forall j :: 0 <= j < k ==> buttons[j] != text
        {
          k := k + 1;
        }
        if k == n {
          assert AnswerIndex(buttons, text).None?;
          return;
        }
        assert AnswerIndex(buttons, text) == Some(k);
        if CROSS !in buttons[k] {
          buttons := buttons[k := text + [CROSS]];
        }
        hint := MistakeHint(q.translation);
      }
      events := [Keyboard(hint, buttons)];
      var audio := Mp3Audio(hint, q.target, q.transcription);
      if audio.TranscriptionMissing? {
        assert events == [Keyboard(hint, buttons)] + AfterHint(q, hint);
        return;
      }
      if audio.AudioFile? {
        events := events + [SendAudio(audio.name)];
      }
      var example := ExampleText(hint, q.enExample, q.ruExample);
      if example.Some? {
        events := events + [Example(example.value)];
      }
      assert events == [Keyboard(hint, buttons)] + AfterHint(q, hint);
    }

    method DeleteWordCallback(userId: int, text: string, now: Timestamp) returns (events: seq<Event>)
      requires Valid()
      modifies repo.db
      ensures (repo.db.State(), events) == ConnectionModel.DeleteWordCallback(old(repo.db.State()), userId, text, now)
      ensures Valid()
    {
      var w := Lower(text);
      var before := repo.GetUserWords(userId, None);
      if IsCmdName(w) {
        return [Say(CommandHint(w))];
      }
      var ok := CheckWordLetters(w, true);
      if !ok {
        return [Say(EnglishOnly(DELETE_WORD))];
      }
      events := RemoveAndReport(userId, w, now, |before|);
    }

    /** The removal of a checked word, and the reply on the count of active words before it. */
    method RemoveAndReport(userId: int, w: string, now: Timestamp, before: nat) returns (events: seq<Event>)
      requires Valid()
      modifies repo.db
      ensures repo.db.State() == RemoveUserWord(old(repo.db.State()), userId, w, now)
      ensures var after := repo.db.State();
        events == if |GetUserWords(after, userId, None)| == before then [Say(NOT_FOUND)]
                  else if GetUniqueUserWords(after, userId).None? then [Say(Deleted(w))]
                  else [Say(Deleted(w)), WordCount(|GetUniqueUserWords(after, userId).value|)]
      ensures Valid()
    {
      repo.RemoveUserWord(userId, w, now);
      var after := repo.GetUserWords(userId, None);
      if |after| == before {
        return [Say(NOT_FOUND)];
      }
      events := [Say(Deleted(w))];
      var unique := repo.GetUniqueUserWords(userId);
      if unique.Some? {
        events := events + [WordCount(|unique.value|)];
      }
    }

    method AddEnWordCallback(userId: int, text: string, now: Timestamp,
                             translation: Option<map<string, seq<Parsing.PromtEntry>>>, url: string)
      returns (events: seq<Event>)
      requires Valid()
      modifies repo.db
      ensures (repo.db.State(), events) == ConnectionModel.AddEnWordCallback(old(repo.db.State()), userId, text, now, translation, url)
      ensures Valid()
    {
      var w := Lower(text);
      if IsCmdName(w) {
        return [Say(CommandHint(w))];
      }
      if CROSS in w {
        return [Say(ALREADY_MARKED)];
      }
      var ok := CheckWordLetters(w, true);
      if !ok {
        return [Say(EnglishOnly(ADD_WORD))];
      }
      var existing := repo.GetUniqueUserWords(userId);
      if existing.None? {
        return [];
      }
      if w in existing.value {
        return [Say(ALREADY_KNOWN)];
      }
      events := AddNewWord(userId, w, now, translation, url);
    }

    /** The look-up and the storing of a new word. */
    method AddNewWord(userId: int, w: string, now: Timestamp,
                      translation: Option<map<string, seq<Parsing.PromtEntry>>>, url: string)
      returns (events: seq<Event>)
      requires Valid()
      modifies repo.db
      ensures (repo.db.State(), events) == ConnectionModel.AddNewWord(old(repo.db.State()), userId, w, now, translation, url)
      ensures Valid()
    {
      var info := Parsing.GetWordInfoLoops(w, POS_LIST, translation, url);
      if info.InfoRaised? {
        return [];
      }
      var stored: seq<Event>;
      if info.records[0].ruWord.None? {
        stored := StoreUntranslated(userId, info.records, now);
      } else {
        stored := StoreTranslated(userId, info.records, now);
      }
      events := Saved(info.audio) + stored;
    }

    method StoreUntranslated(userId: int, records: seq<Parsing.WordInfo>, now: Timestamp) returns (events: seq<Event>)
      requires Valid() && |records| > 0
      modifies repo.db
      ensures (repo.db.State(), events) == ConnectionModel.StoreUntranslated(old(repo.db.State()), userId, records, now)
      ensures Valid()
    {
      var d := records[|records| - 1].(ruWord := Some(""));
      var added := repo.AddUserWord(userId, Parsing.DraftOf(d), now);
      events := if added == Refused then [] else [AskTranslation];
    }

    method StoreTranslated(userId: int, records: seq<Parsing.WordInfo>, now: Timestamp) returns (events: seq<Event>)
      requires Valid()
      modifies repo.db
      ensures (repo.db.State(), events) == ConnectionModel.StoreTranslated(old(repo.db.State()), userId, records, now)
      ensures Valid()
    {
      var before := repo.GetUserWords(userId, None);
      var ok := AddEachLoop(userId, records, now);
      if !ok {
        return [];
      }
      var after := repo.GetUserWords(userId, None);
      if |after| == |before| {
        return [];
      }
      var unique := repo.GetUniqueUserWords(userId);
      events := if unique.Some? then [WordCount(|unique.value|)] else [];
    }

    /** The loop over the records: each is stored in turn until one `add_user_word` raises. */
    method AddEachLoop(userId: int, records: seq<Parsing.WordInfo>, now: Timestamp) returns (ok: bool)
      requires Valid()
      modifies repo.db
      ensures (repo.db.State(), ok) == AddEach(old(repo.db.State()), userId, records, now)
      ensures Valid()
      ensures ok && userId in UserIds(old(repo.db.State()).users) ==>
        forall k :: 0 <= k < |records| && records[k].enWord != "" && HasPosNamed(old(repo.db.State()).pos, records[k].posName) ==>
          UserHasEnWord(repo.db.State(), userId, records[k].enWord)
    {
      ghost var t := repo.db.State();
      var k := 0;
      while k < |records|
        invariant 0 <= k <= |records|
        invariant Valid()
        invariant AddEach(t, userId, records[..k], now) == (repo.db.State(), true)
      {
        assert records[..k + 1][..k] == records[..k];
        var added := repo.AddUserWord(userId, Parsing.DraftOf(records[k]), now);
        if added == Refused {
          AddEachStops(t, userId, records, now, k + 1);
          return false;
        }
        k := k + 1;
      }
      assert records[..k] == records;
      ok := true;
      if userId in UserIds(t.users) {
        AddEachStores(t, userId, records, now);
      }
    }

    method AddRuWordCallback(userId: int, text: string, now: Timestamp) returns (events: seq<Event>)
      requires Valid()
      modifies repo.db
      ensures (repo.db.State(), events) == ConnectionModel.AddRuWordCallback(old(repo.db.State()), userId, text, now)
      ensures Valid()
    {
      var ru := Lower(text);
      var db := repo.GetUserWords(userId, None);
      if |db| == 0 {
        return [];
      }
      var last := db[|db| - 1].enWord;
      var d := RuDraft(last, ru);
      var ok := CheckWordLetters(ru, false);
      if ok {
        var added := repo.AddUserWord(userId, d, now);
        if added == Refused {
          return [];
        }
        var unique := repo.GetUniqueUserWords(userId);
        if unique.None? {
          return [];
        }
        return [WordCount(|unique.value|)];
      }
      repo.DeleteUserWordPair(userId, last);
      var deleted := repo.DeleteWord(d);
      if deleted == Refused {
        return [];
      }
      return [Say(RussianOnly())];
    }
  }
}
