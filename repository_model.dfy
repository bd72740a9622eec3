/**
 * What each `DBRepository` operation does to the database, as functions from one
 * snapshot of the four tables to the next. A write that the database refuses
 * (a NOT NULL, UNIQUE, length, primary-key or foreign-key violation that nothing
 * catches) leaves the snapshot unchanged and reports `Refused`: the exception
 * reaches the caller and nothing was committed.
 */
module RepositoryModel {
  import opened Common
  import opened Structure

  /** How a write ended: it committed (`Done`), its guard found nothing to do
      (`Skipped`), or the database raised and nothing was committed (`Refused`). */
  datatype Outcome = Done | Skipped | Refused

  /** A bulk insert whose IntegrityError is caught and dropped. */
  datatype BulkResult = NothingToInsert | Inserted | Swallowed

  /** The `data_dict` given to `add_word`; a key that is absent reads as `None`. */
  datatype WordDraft = WordDraft(
    enWord: string,
    enTrans: Option<string>,
    mp3Url: Option<string>,
    posName: string,
    ruWord: Option<string>,
    enExample: Option<string>,
    ruExample: Option<string>)

  /** The `user_dict` given to `add_user`. */
  datatype UserDraft = UserDraft(userId: int, firstName: Option<string>, lastName: Option<string>, username: Option<string>)

  /** One dictionary returned by `get_user_words`. */
  datatype UserWordView = UserWordView(
    enWord: string,
    enTrans: Option<string>,
    mp3Url: Option<string>,
    posName: string,
    ruWord: string,
    enExample: string,
    ruExample: string)

  /** The schema's constraints, plus: no user is linked twice to one word. */
  predicate Invariant(t: Tables) {
    SchemaValid(t) && PairsUnique(t.usersWords)
  }

  predicate HasPosNamed(pos: seq<Pos>, name: string) {
    exists i :: 0 <= i < |pos| && pos[i].posName == name
  }

  // ---------------------------------------------------------------- pos

  function AddPos(t: Tables, name: string): (r: (Tables, Outcome))
    ensures r.1 == Skipped <==> HasPosNamed(t.pos, name)
    ensures r.1 == Refused <==> !HasPosNamed(t.pos, name) && |name| > POS_NAME_LENGTH
    ensures r.1 != Done ==> r.0 == t
    ensures r.1 == Done ==> r.0 == t.(pos := t.pos + [Pos(NextId(PosIds(t.pos)), name)])
    ensures Invariant(t) ==> Invariant(r.0)
  {
    if FirstIndex(t.pos, (p: Pos) => p.posName == name).Some? then (t, Skipped)
    else if |name| > POS_NAME_LENGTH then (t, Refused)
    else
      var r := t.(pos := t.pos + [Pos(NextId(PosIds(t.pos)), name)]);
      assert PosIds(r.pos) == PosIds(t.pos) + [NextId(PosIds(t.pos))];
      (r, Done)
  }

  function UpdatePos(t: Tables, oldName: string, newName: string): (r: (Tables, Outcome))
    ensures r.1 == Skipped <==> !HasPosNamed(t.pos, oldName) || HasPosNamed(t.pos, newName)
    ensures r.1 == Refused <==> r.1 != Skipped && |newName| > POS_NAME_LENGTH
    ensures r.1 != Done ==> r.0 == t
    ensures r.0.words == t.words && r.0.users == t.users && r.0.usersWords == t.usersWords
    ensures PosIds(r.0.pos) == PosIds(t.pos)
    ensures r.1 == Done ==> HasPosNamed(r.0.pos, newName)
    ensures r.1 == Done && PosTableValid(t.pos) ==> !HasPosNamed(r.0.pos, oldName)
    ensures r.1 == Done ==>
      exists i :: 0 <= i < |t.pos| && t.pos[i].posName == oldName && r.0.pos == t.pos[i := Pos(t.pos[i].id, newName)]
    ensures Invariant(t) ==> Invariant(r.0)
  {
    match FirstIndex(t.pos, (p: Pos) => p.posName == oldName)
    case None => (t, Skipped)
    case Some(i) =>
      if FirstIndex(t.pos, (p: Pos) => p.posName == newName).Some? then (t, Skipped)
      else if |newName| > POS_NAME_LENGTH then (t, Refused)
      else
        var r := t.(pos := t.pos[i := Pos(t.pos[i].id, newName)]);
        assert PosIds(r.pos) == PosIds(t.pos);
        (r, Done)
  }

  function DeletePos(t: Tables, name: string): (r: (Tables, Outcome))
    ensures r.1 == Skipped <==> !HasPosNamed(t.pos, name)
    ensures r.1 != Done ==> r.0 == t
    ensures r.0.words == t.words && r.0.users == t.users && r.0.usersWords == t.usersWords
    ensures r.1 == Refused ==>
      exists i, k :: 0 <= i < |t.pos| && 0 <= k < |t.words| && t.pos[i].posName == name && t.words[k].idPos == t.pos[i].id
    ensures r.1 == Done ==>
      exists i :: 0 <= i < |t.pos| && t.pos[i].posName == name && r.0.pos == RemoveAt(t.pos, i)
        && forall k :: 0 <= k < |t.words| ==> t.words[k].idPos != t.pos[i].id
    ensures Invariant(t) ==> Invariant(r.0)
  {
    match FirstIndex(t.pos, (p: Pos) => p.posName == name)
    case None => (t, Skipped)
    case Some(i) =>
      var id := t.pos[i].id;
      if FirstIndex(t.words, (w: Word) => w.idPos == id).Some? then (t, Refused)
      else
        var r := t.(pos := RemoveAt(t.pos, i));
        assert Invariant(t) ==> Invariant(r) by {
          if Invariant(t) {
            PosRemoveKeepsValid(t.pos, i);
            forall k | 0 <= k < |t.words| ensures t.words[k].idPos in PosIds(r.pos) {
              var j :| 0 <= j < |t.pos| && t.pos[j].id == t.words[k].idPos;
              assert j != i;
              if j < i { assert r.pos[j] == t.pos[j]; } else { assert r.pos[j - 1] == t.pos[j]; }
            }
          }
        }
        (r, Done)
  }

  lemma PosRemoveKeepsValid(pos: seq<Pos>, i: nat)
    requires i < |pos| && PosTableValid(pos)
    ensures PosTableValid(RemoveAt(pos, i))
  {
    var r := RemoveAt(pos, i);
    forall a, b | 0 <= a < b < |r| ensures r[a].id != r[b].id && r[a].posName != r[b].posName {
      var a' := if a < i then a else a + 1;
      var b' := if b < i then b else b + 1;
      assert r[a] == pos[a'] && r[b] == pos[b'];
    }
  }

  /** The pos rows, as `get_pos` lists them (empty when the table is empty). */
  function GetPos(t: Tables): (r: seq<Pos>)
    ensures forall p :: p in r <==> p in t.pos
  {
    t.pos
  }

  // ---------------------------------------------------------------- words

  /** The ids of the pos rows named `name`, in table order. */
  function IdsNamed(pos: seq<Pos>, name: string): (r: seq<int>)
    ensures forall i :: 0 <= i < |pos| && pos[i].posName == name ==> pos[i].id in r
    ensures forall x :: x in r ==> exists i :: 0 <= i < |pos| && pos[i].posName == name && pos[i].id == x
  {
    if |pos| == 0 then []
    else
      var last := pos[|pos| - 1];
      var front := pos[..|pos| - 1];
      assert forall i :: 0 <= i < |front| ==> front[i] == pos[i];
      IdsNamed(front, name) + (if last.posName == name then [last.id] else [])
  }

  /** The id of the part of speech named `name`: the last one found (`id_pos.pop()`). */
  function PosIdOf(pos: seq<Pos>, name: string): (r: Option<int>)
    ensures r.Some? <==> HasPosNamed(pos, name)
    ensures r.Some? ==> exists i :: 0 <= i < |pos| && pos[i].posName == name && pos[i].id == r.value
    ensures PosTableValid(pos) ==> forall i :: 0 <= i < |pos| && pos[i].posName == name ==> r == Some(pos[i].id)
  {
    var ids := IdsNamed(pos, name);
    if |ids| == 0 then None
    else
      assert ids[|ids| - 1] in ids;
      Some(ids[|ids| - 1])
  }

  /** The row `add_word` would write, or `None` when a NOT NULL column would be NULL. */
  function WordRow(id: int, d: WordDraft, idPos: int, byUser: bool): (r: Option<Word>)
    ensures r.Some? <==> d.ruWord.Some? && d.enExample.Some? && d.ruExample.Some?
    ensures r.Some? ==> Stores(r.value, d, idPos, byUser) && r.value.id == id
    ensures r.Some? ==> (WordFits(r.value) <==> DraftFits(d))
  {
    if d.ruWord.None? || d.enExample.None? || d.ruExample.None? then None
    else Some(Word(id, d.enWord, d.enTrans, d.mp3Url, idPos, d.ruWord.value, d.enExample.value, d.ruExample.value, byUser))
  }

  /** Every field of the draft fits its column (a longer value raises a DataError). */
  predicate DraftFits(d: WordDraft) {
    && |d.enWord| <= WORD_FIELD_LENGTH && FitsOpt(d.enTrans, WORD_FIELD_LENGTH) && FitsOpt(d.mp3Url, WORD_FIELD_LENGTH)
    && FitsOpt(d.ruWord, WORD_FIELD_LENGTH) && FitsOpt(d.enExample, EXAMPLE_LENGTH) && FitsOpt(d.ruExample, EXAMPLE_LENGTH)
  }

  /** The draft can be stored: no NULL in a NOT NULL column and nothing too long. */
  predicate DraftStorable(d: WordDraft) {
    d.ruWord.Some? && d.enExample.Some? && d.ruExample.Some? && DraftFits(d)
  }

  /** `w` holds every field of the draft, under part of speech `idPos`. */
  predicate Stores(w: Word, d: WordDraft, idPos: int, byUser: bool) {
    && w.enWord == d.enWord && w.enTrans == d.enTrans && w.mp3Url == d.mp3Url && w.idPos == idPos
    && Some(w.ruWord) == d.ruWord && Some(w.enExample) == d.enExample && Some(w.ruExample) == d.ruExample
    && w.isAddedByUsers == byUser
  }

  predicate HasWordAt(words: seq<Word>, enWord: string, idPos: int) {
    exists k :: 0 <= k < |words| && words[k].enWord == enWord && words[k].idPos == idPos
  }

  /** The row for (en_word, id_pos) the upsert finds, if any. */
  function WordIndex(words: seq<Word>, enWord: string, idPos: int): (r: Option<nat>)
    ensures r.Some? ==> r.value < |words| && words[r.value].enWord == enWord && words[r.value].idPos == idPos
    ensures r.None? <==> !HasWordAt(words, enWord, idPos)
  {
    FirstIndex(words, (w: Word) => w.enWord == enWord && w.idPos == idPos)
  }

  /**
   * `add_word`: an upsert keyed by (en_word, id_pos). An existing row keeps its id and
   * gets the draft's other fields; otherwise a row with the next id is appended.
   */
  function AddWord(t: Tables, d: WordDraft, byUser: bool): (r: (Tables, Outcome))
    ensures r.1 == Skipped <==> !HasPosNamed(t.pos, d.posName)
    ensures r.1 == Refused <==> HasPosNamed(t.pos, d.posName) && !DraftStorable(d)
    ensures r.1 != Done ==> r.0 == t
    ensures r.0.pos == t.pos && r.0.users == t.users && r.0.usersWords == t.usersWords
    ensures r.1 == Done ==> exists k :: 0 <= k < |r.0.words| && Stores(r.0.words[k], d, PosIdOf(t.pos, d.posName).value, byUser)
    ensures r.1 == Done ==> WordIds(t.words) <= WordIds(r.0.words)
    ensures r.1 == Done ==>
      |r.0.words| == if HasWordAt(t.words, d.enWord, PosIdOf(t.pos, d.posName).value) then |t.words| else |t.words| + 1
    ensures r.1 == Done && !HasWordAt(t.words, d.enWord, PosIdOf(t.pos, d.posName).value) ==>
      && r.0.words[..|t.words|] == t.words
      && r.0.words[|t.words|].id == NextId(WordIds(t.words))
      && Stores(r.0.words[|t.words|], d, PosIdOf(t.pos, d.posName).value, byUser)
    ensures r.1 == Done && HasWordAt(t.words, d.enWord, PosIdOf(t.pos, d.posName).value) ==>
      var i := WordIndex(t.words, d.enWord, PosIdOf(t.pos, d.posName).value).value;
      && r.0.words == t.words[i := r.0.words[i]]
      && r.0.words[i].id == t.words[i].id
      && Stores(r.0.words[i], d, PosIdOf(t.pos, d.posName).value, byUser)
    ensures Invariant(t) ==> Invariant(r.0)
  {
    match PosIdOf(t.pos, d.posName)
    case None => (t, Skipped)
    case Some(idPos) =>
      if !DraftStorable(d) then (t, Refused)
      else
        match WordIndex(t.words, d.enWord, idPos)
        case None =>
          var row := WordRow(NextId(WordIds(t.words)), d, idPos, byUser).value;
          WordInsertFacts(t, row);
          (t.(words := t.words + [row]), Done)
        case Some(i) =>
          var row := WordRow(t.words[i].id, d, idPos, byUser).value;
          WordOverwriteFacts(t, i, row);
          (t.(words := t.words[i := row]), Done)
  }

  /** An appended row keeps the old ids and adds its own. */
  lemma WordInsertFacts(t: Tables, row: Word)
    requires WordFits(row) && row.idPos in PosIds(t.pos)
    requires row.id == NextId(WordIds(t.words))
    ensures WordIds(t.words + [row]) == WordIds(t.words) + [row.id] && (t.words + [row])[|t.words|] == row
    ensures Invariant(t) ==> Invariant(t.(words := t.words + [row]))
  {
    if Invariant(t) { WordInsertKeepsValid(t, row); }
    assert WordIds(t.words + [row]) == WordIds(t.words) + [row.id];
  }

  /** An overwritten row keeps every id. */
  lemma WordOverwriteFacts(t: Tables, i: nat, row: Word)
    requires i < |t.words| && WordFits(row) && row.idPos in PosIds(t.pos)
    requires row.id == t.words[i].id
    ensures WordIds(t.words[i := row]) == WordIds(t.words)
    ensures Invariant(t) ==> Invariant(t.(words := t.words[i := row]))
  {
    if Invariant(t) { WordOverwriteKeepsValid(t, i, row); }
    assert WordIds(t.words[i := row]) == WordIds(t.words);
  }

  lemma WordInsertKeepsValid(t: Tables, row: Word)
    requires Invariant(t) && WordFits(row) && row.idPos in PosIds(t.pos)
    requires row.id == NextId(WordIds(t.words))
    ensures Invariant(t.(words := t.words + [row]))
  {
    var r := t.words + [row];
    assert WordIds(r) == WordIds(t.words) + [row.id];
    AppendNextDistinct(WordIds(t.words));
    assert WordsTableValid(r, t.pos) by {
      forall i | 0 <= i < |r| ensures WordFits(r[i]) && r[i].idPos in PosIds(t.pos) {
        if i < |t.words| { assert r[i] == t.words[i]; }
      }
    }
    forall j | 0 <= j < |t.usersWords| ensures t.usersWords[j].wordId in WordIds(r) {
      var i :| 0 <= i < |t.words| && t.words[i].id == t.usersWords[j].wordId;
      assert WordIds(r)[i] == t.words[i].id;
    }
  }

  lemma WordOverwriteKeepsValid(t: Tables, i: nat, row: Word)
    requires Invariant(t) && i < |t.words| && WordFits(row) && row.idPos in PosIds(t.pos)
    requires row.id == t.words[i].id
    ensures Invariant(t.(words := t.words[i := row]))
  {
    assert WordIds(t.words[i := row]) == WordIds(t.words);
  }

  /** `delete_word`: removes the (en_word, id_pos) row, which the foreign key of `users_words` may refuse. */
  function DeleteWord(t: Tables, d: WordDraft): (r: (Tables, Outcome))
    ensures r.1 == Skipped <==> !HasPosNamed(t.pos, d.posName) || !HasWordAt(t.words, d.enWord, PosIdOf(t.pos, d.posName).value)
    ensures r.1 != Done ==> r.0 == t
    ensures r.0.pos == t.pos && r.0.users == t.users && r.0.usersWords == t.usersWords
    ensures r.1 == Refused ==>
      exists k, j :: (0 <= k < |t.words| && 0 <= j < |t.usersWords|
        && t.words[k].enWord == d.enWord && t.words[k].idPos == PosIdOf(t.pos, d.posName).value
        && t.usersWords[j].wordId == t.words[k].id)
    ensures r.1 == Done ==>
      exists k :: (0 <= k < |t.words| && r.0.words == RemoveAt(t.words, k)
        && t.words[k].enWord == d.enWord && t.words[k].idPos == PosIdOf(t.pos, d.posName).value
        && forall j :: 0 <= j < |t.usersWords| ==> t.usersWords[j].wordId != t.words[k].id)
    ensures Invariant(t) ==> Invariant(r.0)
  {
    match PosIdOf(t.pos, d.posName)
    case None => (t, Skipped)
    case Some(idPos) =>
      match WordIndex(t.words, d.enWord, idPos)
      case None => (t, Skipped)
      case Some(k) =>
        var id := t.words[k].id;
        if WordLinked(t.usersWords, id).Some? then (t, Refused)
        else
          var r := t.(words := RemoveAt(t.words, k));
          assert Invariant(t) ==> Invariant(r) by {
            if Invariant(t) { WordRemoveKeepsValid(t, k); }
          }
          (r, Done)
  }

  /** A `users_words` row that references word `id`, if any (the foreign key checks for one). */
  function WordLinked(pairs: seq<UserWord>, id: int): (r: Option<nat>)
    ensures r.Some? ==> r.value < |pairs| && pairs[r.value].wordId == id
    ensures r.None? <==> forall j :: 0 <= j < |pairs| ==> pairs[j].wordId != id
  {
    FirstIndex(pairs, (p: UserWord) => p.wordId == id)
  }

  lemma WordRemoveKeepsValid(t: Tables, k: nat)
    requires Invariant(t) && k < |t.words|
    requires forall j :: 0 <= j < |t.usersWords| ==> t.usersWords[j].wordId != t.words[k].id
    ensures Invariant(t.(words := RemoveAt(t.words, k)))
  {
    var r := RemoveAt(t.words, k);
    forall a, b | 0 <= a < b < |r| ensures r[a].id != r[b].id {
      var a' := if a < k then a else a + 1;
      var b' := if b < k then b else b + 1;
      assert r[a] == t.words[a'] && r[b] == t.words[b'];
    }
    forall a | 0 <= a < |r| ensures WordFits(r[a]) && r[a].idPos in PosIds(t.pos) {
      var a' := if a < k then a else a + 1;
      assert r[a] == t.words[a'];
    }
    forall j | 0 <= j < |t.usersWords| ensures t.usersWords[j].wordId in WordIds(r) {
      var i :| 0 <= i < |t.words| && t.words[i].id == t.usersWords[j].wordId;
      assert i != k;
      if i < k { assert r[i] == t.words[i]; } else { assert r[i - 1] == t.words[i]; }
    }
  }

  /** `get_words`: the words with the given flag, and with the given `en_word` unless it is empty. */
  function GetWords(t: Tables, enWord: string, byUser: bool): (r: seq<Word>)
    ensures forall w :: w in r <==> w in t.words && w.isAddedByUsers == byUser && (enWord == "" || w.enWord == enWord)
  {
    Filter(t.words, (w: Word) => w.isAddedByUsers == byUser && (enWord == "" || w.enWord == enWord))
  }

  // ---------------------------------------------------------------- users

  /** The row `add_user` writes, or `None` when a NOT NULL column would be NULL. */
  function UserRow(d: UserDraft): (r: Option<User>)
    ensures r.Some? <==> d.firstName.Some? && d.lastName.Some? && d.username.Some?
    ensures r.Some? ==> (r.value.userId == d.userId && Some(r.value.firstName) == d.firstName
      && Some(r.value.lastName) == d.lastName && Some(r.value.username) == d.username)
  {
    if d.firstName.None? || d.lastName.None? || d.username.None? then None
    else Some(User(d.userId, d.firstName.value, d.lastName.value, d.username.value))
  }

  /** Another user than `userId` already holds `username`. */
  predicate UsernameTaken(users: seq<User>, userId: int, username: string) {
    exists k :: 0 <= k < |users| && users[k].userId != userId && users[k].username == username
  }

  /** `add_user`: an upsert keyed by `user_id`. */
  function AddUser(t: Tables, d: UserDraft): (r: (Tables, Outcome))
    ensures r.1 != Skipped
    ensures r.1 == Refused <==> UserRow(d).None? || !UserFits(UserRow(d).value) || UsernameTaken(t.users, d.userId, UserRow(d).value.username)
    ensures r.1 == Refused ==> r.0 == t
    ensures r.0.pos == t.pos && r.0.words == t.words && r.0.usersWords == t.usersWords
    ensures r.1 == Done && Invariant(t) ==> forall u :: u in r.0.users <==> (u in t.users && u.userId != d.userId) || u == UserRow(d).value
    ensures Invariant(t) ==> Invariant(r.0)
  {
    var row := UserRow(d);
    if row.None? || !UserFits(row.value) then (t, Refused)
    else
      var u := row.value;
      match FirstIndex(t.users, (x: User) => x.userId == d.userId)
      case None =>
        if FirstIndex(t.users, (x: User) => x.username == u.username).Some? then (t, Refused)
        else
          var r := t.(users := t.users + [u]);
          assert Invariant(t) ==> Invariant(r) by {
            if Invariant(t) { AppendUserValid(t, u); }
          }
          (r, Done)
      case Some(i) =>
        if FirstIndex(t.users, (x: User) => x.username == u.username && x.userId != d.userId).Some? then (t, Refused)
        else
          var r := t.(users := t.users[i := u]);
          assert Invariant(t) ==> Invariant(r) && forall x :: x in r.users <==> (x in t.users && x.userId != d.userId) || x == u by {
            if Invariant(t) { ReplaceUserValid(t, i, u); }
          }
          (r, Done)
  }

  /** Appending a user with a new id and a free username keeps every constraint. */
  lemma AppendUserValid(t: Tables, u: User)
    requires Invariant(t) && UserFits(u)
    requires forall k :: 0 <= k < |t.users| ==> t.users[k].userId != u.userId && t.users[k].username != u.username
    ensures Invariant(t.(users := t.users + [u]))
  {
    var r := t.(users := t.users + [u]);
    assert UserIds(r.users) == UserIds(t.users) + [u.userId];
    forall j | 0 <= j < |t.usersWords| ensures t.usersWords[j].userId in UserIds(r.users) {
      var i :| 0 <= i < |t.users| && t.users[i].userId == t.usersWords[j].userId;
      assert UserIds(r.users)[i] == t.users[i].userId;
    }
  }

  /** Overwriting row `i` with a row of the same id and a username no other user has keeps every constraint. */
  lemma ReplaceUserValid(t: Tables, i: nat, u: User)
    requires Invariant(t) && UserFits(u) && i < |t.users| && t.users[i].userId == u.userId
    requires forall k :: 0 <= k < |t.users| && t.users[k].userId != u.userId ==> t.users[k].username != u.username
    ensures var r := t.(users := t.users[i := u]);
      Invariant(r) && forall x :: x in r.users <==> (x in t.users && x.userId != u.userId) || x == u
  {
    var r := t.(users := t.users[i := u]);
    assert UserIds(r.users) == UserIds(t.users);
    forall x | x in t.users && x.userId != u.userId ensures x in r.users {
      var k :| 0 <= k < |t.users| && t.users[k] == x;
      assert k != i;
      assert r.users[k] == x;
    }
    forall x | x in r.users ensures (x in t.users && x.userId != u.userId) || x == u {
      var k :| 0 <= k < |r.users| && r.users[k] == x;
      if k != i {
        assert x == t.users[k];
        assert UserIds(t.users)[k] != UserIds(t.users)[i];
      }
    }
  }

  /** `delete_user`: removes the user; `users_words` rows of that user go with it (ON DELETE CASCADE). */
  function DeleteUser(t: Tables, userId: int): (r: (Tables, Outcome))
    ensures r.1 != Refused
    ensures r.1 == Skipped <==> userId !in UserIds(t.users)
    ensures r.1 == Skipped ==> r.0 == t
    ensures r.0.pos == t.pos && r.0.words == t.words
    ensures Invariant(t) ==> forall u :: u in r.0.users <==> u in t.users && u.userId != userId
    ensures forall p :: p in r.0.usersWords <==> p in t.usersWords && (r.1 == Skipped || p.userId != userId)
    ensures Invariant(t) ==> Invariant(r.0)
  {
    match FirstIndex(t.users, (x: User) => x.userId == userId)
    case None => (t, Skipped)
    case Some(i) =>
      var r := DeleteUserCascade(t, i);
      assert Invariant(t) ==> Invariant(r) && forall u :: u in r.users <==> u in t.users && u.userId != userId by {
        if Invariant(t) { DeleteUserKeepsInvariant(t, i); }
      }
      (r, Done)
  }

  /** Deleting a user row (and its cascade) keeps the invariant and leaves exactly the other users. */
  lemma DeleteUserKeepsInvariant(t: Tables, i: nat)
    requires Invariant(t) && i < |t.users|
    ensures Invariant(DeleteUserCascade(t, i))
    ensures forall u :: u in DeleteUserCascade(t, i).users <==> u in t.users && u.userId != t.users[i].userId
  {
    var r := DeleteUserCascade(t, i);
    var userId := t.users[i].userId;
    DeleteUserCascadeValid(t, i);
    FilterPairwise(t.usersWords, (p: UserWord) => p.userId != userId,
      (a: UserWord, b: UserWord) => !(a.userId == b.userId && a.wordId == b.wordId));
    DeleteUserLeavesOthers(t, i);
  }

  /** The users left are all those with another id, as the ids are distinct. */
  lemma DeleteUserLeavesOthers(t: Tables, i: nat)
    requires Distinct(UserIds(t.users)) && i < |t.users|
    ensures forall u :: u in DeleteUserCascade(t, i).users <==> u in t.users && u.userId != t.users[i].userId
  {
    var r := DeleteUserCascade(t, i);
    var userId := t.users[i].userId;
    forall u | u in t.users && u.userId != userId ensures u in r.users {
      var k :| 0 <= k < |t.users| && t.users[k] == u;
      if k < i { assert r.users[k] == u; } else { assert r.users[k - 1] == u; }
    }
    forall u | u in r.users ensures u in t.users && u.userId != userId {
      var k :| 0 <= k < |r.users| && r.users[k] == u;
      var k' := if k < i then k else k + 1;
      assert u == t.users[k'];
      assert UserIds(t.users)[k'] != UserIds(t.users)[i];
    }
  }

  /** `get_users`: every user when `userId` is 0 (Python's falsy id), else the rows with that id. */
  function GetUsers(t: Tables, userId: int): (r: seq<User>)
    ensures forall u :: u in r <==> u in t.users && (userId == 0 || u.userId == userId)
  {
    if userId == 0 then t.users else Filter(t.users, (u: User) => u.userId == userId)
  }

  // ---------------------------------------------------------------- users_words

  predicate HasPairOf(pairs: seq<UserWord>, userId: int) {
    exists i :: 0 <= i < |pairs| && pairs[i].userId == userId
  }

  predicate HasLink(pairs: seq<UserWord>, userId: int, wordId: int) {
    exists i :: 0 <= i < |pairs| && pairs[i].userId == userId && pairs[i].wordId == wordId
  }

  /** The user has an active (`is_added`) row for the word. */
  predicate ActiveLink(pairs: seq<UserWord>, userId: int, wordId: int) {
    exists i :: 0 <= i < |pairs| && pairs[i].userId == userId && pairs[i].wordId == wordId && pairs[i].isAdded
  }

  /** The first row linking the user to the word (the `.first()` of the lookup), if any. */
  function LinkIndex(p: seq<UserWord>, userId: int, wordId: int): (r: Option<nat>)
    ensures r.Some? ==> r.value < |p| && p[r.value].userId == userId && p[r.value].wordId == wordId
    ensures r.Some? ==> forall j :: 0 <= j < r.value ==> !(p[j].userId == userId && p[j].wordId == wordId)
    ensures r.None? <==> !HasLink(p, userId, wordId)
  {
    FirstIndex(p, (x: UserWord) => x.userId == userId && x.wordId == wordId)
  }

  /** The first active row linking the user to the word, if any. */
  function ActiveLinkIndex(p: seq<UserWord>, userId: int, wordId: int): (r: Option<nat>)
    ensures r.Some? ==> r.value < |p| && p[r.value].userId == userId && p[r.value].wordId == wordId && p[r.value].isAdded
    ensures r.Some? ==> forall j :: 0 <= j < r.value ==> !(p[j].userId == userId && p[j].wordId == wordId && p[j].isAdded)
    ensures r.None? <==> !ActiveLink(p, userId, wordId)
  {
    FirstIndex(p, (x: UserWord) => x.userId == userId && x.wordId == wordId && x.isAdded)
  }

  /** `b` is `a` with only non-key columns (flags and dates) changed. */
  predicate KeysPreserved(a: seq<UserWord>, b: seq<UserWord>) {
    && |a| == |b|
    && forall i :: 0 <= i < |a| ==>
      b[i].id == a[i].id && b[i].userId == a[i].userId && b[i].wordId == a[i].wordId && b[i].isUserWord == a[i].isUserWord
  }

  lemma KeysPreservedKeepsValid(t: Tables, pairs: seq<UserWord>)
    requires Invariant(t) && KeysPreserved(t.usersWords, pairs)
    ensures Invariant(t.(usersWords := pairs))
  {
    assert PairIds(pairs) == PairIds(t.usersWords);
  }

  /** The database accepts these rows in one bulk insert: primary keys stay distinct and both foreign keys hold. */
  predicate BulkAccepted(t: Tables, rows: seq<UserWord>) {
    UsersWordsTableValid(t.usersWords + rows, t.users, t.words)
  }

  /** Rows with increasing ids above every existing id, and with valid foreign keys, are accepted. */
  lemma FreshRowsAccepted(t: Tables, rows: seq<UserWord>)
    requires UsersWordsTableValid(t.usersWords, t.users, t.words)
    requires forall a, b :: 0 <= a < b < |rows| ==> rows[a].id < rows[b].id
    requires forall a :: 0 <= a < |rows| ==> rows[a].id >= NextId(PairIds(t.usersWords))
    requires forall a :: 0 <= a < |rows| ==> rows[a].userId in UserIds(t.users) && rows[a].wordId in WordIds(t.words)
    ensures BulkAccepted(t, rows)
  {
    var all := t.usersWords + rows;
    var n := |t.usersWords|;
    forall i, j | 0 <= i < j < |all| ensures PairIds(all)[i] != PairIds(all)[j] {
      if j >= n {
        assert all[j] == rows[j - n];
        if i >= n { assert all[i] == rows[i - n]; } else { assert PairIds(t.usersWords)[i] == all[i].id; }
      } else {
        assert PairIds(t.usersWords)[i] == all[i].id && PairIds(t.usersWords)[j] == all[j].id;
      }
    }
    forall i | 0 <= i < |all| ensures all[i].userId in UserIds(t.users) && all[i].wordId in WordIds(t.words) {
      if i >= n { assert all[i] == rows[i - n]; }
    }
  }

  lemma FilteredWordIdsDistinct(words: seq<Word>, p: Word -> bool)
    requires Distinct(WordIds(words))
    ensures Distinct(WordIds(Filter(words, p)))
    ensures forall x :: x in WordIds(Filter(words, p)) ==> x in WordIds(words)
  {
    FilterPairwise(words, p, (a: Word, b: Word) => a.id != b.id);
    var f := Filter(words, p);
    forall x | x in WordIds(f) ensures x in WordIds(words) {
      var k :| 0 <= k < |f| && f[k].id == x;
      assert f[k] in words;
      var j :| 0 <= j < |words| && words[j] == f[k];
      assert WordIds(words)[j] == x;
    }
  }

  /** The rows `prepare_user_word_pairs` builds: one active row per word id, ids counting up from `start`. */
  function SeedRows(start: int, userId: int, wordIds: seq<int>, now: Timestamp): (r: seq<UserWord>)
    ensures |r| == |wordIds|
    ensures forall k :: 0 <= k < |r| ==> r[k] == UserWord(start + k, userId, wordIds[k], true, false, Some(now), None)
  {
    seq(|wordIds|, k requires 0 <= k < |wordIds| => UserWord(start + k, userId, wordIds[k], true, false, Some(now), None))
  }

  /** The user id `prepare_user_word_pairs` goes on with: that of the last row `get_users` returns, else 0. */
  function SeedUser(t: Tables, userId: int): (r: int)
    ensures r == 0 || r in UserIds(t.users)
    ensures userId != 0 ==> r == (if userId in UserIds(t.users) then userId else 0)
    ensures userId == 0 ==> r == (if |t.users| == 0 then 0 else t.users[|t.users| - 1].userId)
  {
    var users := GetUsers(t, userId);
    if |users| == 0 then 0
    else
      var u := users[|users| - 1];
      assert u in t.users;
      var k :| 0 <= k < |t.users| && t.users[k] == u;
      assert UserIds(t.users)[k] == u.userId;
      u.userId
  }

  /**
   * `prepare_user_word_pairs`: links a user who has no `users_words` row yet to every word
   * added by the developer (`is_added_by_users = False`).
   */
  function PrepareUserWordPairs(t: Tables, userId: int, now: Timestamp): (r: (Tables, BulkResult))
    ensures r.1 != Inserted ==> r.0 == t
    ensures r.0.pos == t.pos && r.0.words == t.words && r.0.users == t.users
    ensures r.1 == Inserted ==> t.usersWords < r.0.usersWords && !HasPairOf(t.usersWords, SeedUser(t, userId))
    ensures r.1 == NothingToInsert <==>
      SeedUser(t, userId) == 0 || HasPairOf(t.usersWords, SeedUser(t, userId)) || |GetWords(t, "", false)| == 0
    ensures r.1 == Inserted ==>
      r.0.usersWords == t.usersWords + SeedRows(NextId(PairIds(t.usersWords)), SeedUser(t, userId), WordIds(GetWords(t, "", false)), now)
    ensures Invariant(t) && SeedUser(t, userId) != 0 && !HasPairOf(t.usersWords, SeedUser(t, userId)) && |GetWords(t, "", false)| > 0 ==>
      r.1 == Inserted
    ensures Invariant(t) ==> r.1 != Swallowed
    ensures Invariant(t) ==> Invariant(r.0)
  {
    var ids := WordIds(GetWords(t, "", false));
    var u := SeedUser(t, userId);
    if FirstIndex(t.usersWords, (p: UserWord) => p.userId == u).Some? || |ids| == 0 || u == 0 then (t, NothingToInsert)
    else
      var rows := SeedRows(NextId(PairIds(t.usersWords)), u, ids, now);
      assert Invariant(t) ==> BulkAccepted(t, rows) && PairsUnique(t.usersWords + rows) by {
        if Invariant(t) { SeedAccepted(t, u, ids, now, rows); }
      }
      if BulkAccepted(t, rows) then (t.(usersWords := t.usersWords + rows), Inserted) else (t, Swallowed)
  }

  lemma SeedAccepted(t: Tables, u: int, ids: seq<int>, now: Timestamp, rows: seq<UserWord>)
    requires UsersWordsTableValid(t.usersWords, t.users, t.words) && PairsUnique(t.usersWords)
    requires Distinct(WordIds(t.words))
    requires u in UserIds(t.users) && !HasPairOf(t.usersWords, u)
    requires ids == WordIds(GetWords(t, "", false))
    requires rows == SeedRows(NextId(PairIds(t.usersWords)), u, ids, now)
    ensures BulkAccepted(t, rows) && PairsUnique(t.usersWords + rows)
  {
    GetWordsIdsDistinct(t, "", false);
    FreshRowsAccepted(t, rows);
    SeedRowsUnique(t.usersWords, u, ids, NextId(PairIds(t.usersWords)), now);
  }

  /** Seed rows for a user without rows, over distinct word ids, keep (user, word) pairs unique. */
  lemma SeedRowsUnique(pairs: seq<UserWord>, u: int, ids: seq<int>, start: int, now: Timestamp)
    requires PairsUnique(pairs) && !HasPairOf(pairs, u) && Distinct(ids)
    ensures PairsUnique(pairs + SeedRows(start, u, ids, now))
  {
    var rows := SeedRows(start, u, ids, now);
    var all := pairs + rows;
    var n := |pairs|;
    forall i, j | 0 <= i < j < |all| ensures !(all[i].userId == all[j].userId && all[i].wordId == all[j].wordId) {
      if i >= n {
        assert all[i] == rows[i - n] && all[j] == rows[j - n];
        assert ids[i - n] != ids[j - n];
      } else if j >= n {
        assert all[i] == pairs[i] && all[j] == rows[j - n];
      } else {
        assert all[i] == pairs[i] && all[j] == pairs[j];
      }
    }
  }

  /** What a seeding that inserts leaves: the seed rows of a user who had none, after the old rows. */
  lemma PrepareInsertedShape(t: Tables, userId: int, now: Timestamp)
    requires PrepareUserWordPairs(t, userId, now).1 == Inserted
    ensures var u := SeedUser(t, userId);
      var ids := WordIds(GetWords(t, "", false));
      && u != 0 && |ids| > 0
      && PrepareUserWordPairs(t, userId, now).0 == t.(usersWords := t.usersWords + SeedRows(NextId(PairIds(t.usersWords)), u, ids, now))
  {
  }

  /** A user with a row is not seeded again. */
  lemma SeedSkipsUserWithRows(t: Tables, userId: int, now: Timestamp, k: nat)
    requires k < |t.usersWords| && t.usersWords[k].userId == SeedUser(t, userId)
    ensures PrepareUserWordPairs(t, userId, now).0 == t
  {
    var u := SeedUser(t, userId);
    assert ((p: UserWord) => p.userId == u)(t.usersWords[k]);
  }

  /** Whether the database accepts the seed rows does not depend on their date. */
  lemma SeedRowsAcceptedAnyDate(t: Tables, start: int, u: int, ids: seq<int>, now1: Timestamp, now2: Timestamp)
    requires BulkAccepted(t, SeedRows(start, u, ids, now2))
    ensures BulkAccepted(t, SeedRows(start, u, ids, now1))
  {
    var a1, a2 := t.usersWords + SeedRows(start, u, ids, now1), t.usersWords + SeedRows(start, u, ids, now2);
    assert forall i :: 0 <= i < |a1| ==> a1[i].id == a2[i].id && a1[i].userId == a2[i].userId && a1[i].wordId == a2[i].wordId;
    assert PairIds(a1) == PairIds(a2);
  }

  /** The seeded user is chosen from the `users` table alone. */
  lemma SeedUserOfUsers(t1: Tables, t2: Tables, userId: int)
    requires t1.users == t2.users
    ensures SeedUser(t1, userId) == SeedUser(t2, userId)
  {
    assert GetUsers(t1, userId) == GetUsers(t2, userId);
  }

  /** Running `prepare_user_word_pairs` again changes nothing: the user now has rows. */
  lemma PrepareUserWordPairsIdempotent(t: Tables, userId: int, now1: Timestamp, now2: Timestamp)
    ensures var once := PrepareUserWordPairs(t, userId, now1).0;
      PrepareUserWordPairs(once, userId, now2).0 == once
  {
    var r := PrepareUserWordPairs(t, userId, now1);
    var u := SeedUser(t, userId);
    var ids := WordIds(GetWords(t, "", false));
    var start := NextId(PairIds(t.usersWords));
    if r.1 == Inserted {
      PrepareInsertedShape(t, userId, now1);
      var rows := SeedRows(start, u, ids, now1);
      assert r.0.usersWords == t.usersWords + rows;
      SeedUserOfUsers(r.0, t, userId);
      assert r.0.usersWords[|t.usersWords|] == rows[0];
      SeedSkipsUserWithRows(r.0, userId, now2, |t.usersWords|);
    } else if BulkAccepted(t, SeedRows(start, u, ids, now2)) {
      SeedRowsAcceptedAnyDate(t, start, u, ids, now1, now2);
    }
  }

  /** A row made active again: `is_added` set, a new `date_added`, `date_deleted` cleared. */
  function Reactivated(p: UserWord, now: Timestamp): (r: UserWord)
    ensures r.isAdded && r.dateAdded == Some(now) && r.dateDeleted.None?
    ensures r.id == p.id && r.userId == p.userId && r.wordId == p.wordId && r.isUserWord == p.isUserWord
  {
    p.(isAdded := true, dateAdded := Some(now), dateDeleted := None)
  }

  /** The row `add_user_word` queues for a word the user has no row for. */
  function NewLink(id: int, userId: int, wordId: int, now: Timestamp): UserWord {
    UserWord(id, userId, wordId, true, true, Some(now), None)
  }

  /**
   * The loop of `add_user_word` over `ids`: the rows after the in-place reactivations,
   * and the rows queued for the bulk insert (the word at loop index k gets id `start + k`).
   */
  function LinkWords(pairs: seq<UserWord>, userId: int, ids: seq<int>, start: int, now: Timestamp): (r: (seq<UserWord>, seq<UserWord>))
    ensures KeysPreserved(pairs, r.0)
    ensures forall i :: 0 <= i < |pairs| ==>
      r.0[i] == pairs[i] || (pairs[i].userId == userId && pairs[i].wordId in ids && !pairs[i].isAdded && r.0[i] == Reactivated(pairs[i], now))
    decreases |ids|
  {
    if |ids| == 0 then (pairs, [])
    else
      var k := |ids| - 1;
      var prev := LinkWords(pairs, userId, ids[..k], start, now);
      assert forall x :: x in ids[..k] ==> x in ids;
      LinkStep(prev.0, prev.1, userId, ids[k], start + k, now)
  }

  /** The loop after `k + 1` words is one more turn after `k` words. */
  lemma LinkWordsNext(pairs: seq<UserWord>, userId: int, ids: seq<int>, k: nat, start: int, now: Timestamp)
    requires k < |ids|
    ensures LinkWords(pairs, userId, ids[..k + 1], start, now)
         == LinkStep(LinkWords(pairs, userId, ids[..k], start, now).0, LinkWords(pairs, userId, ids[..k], start, now).1,
                     userId, ids[k], start + k, now)
  {
    assert ids[..k + 1][..k] == ids[..k];
  }

  /** One turn of that loop, for the word `wordId` at row id `id`. */
  function LinkStep(p: seq<UserWord>, rows: seq<UserWord>, userId: int, wordId: int, id: int, now: Timestamp): (r: (seq<UserWord>, seq<UserWord>))
    ensures KeysPreserved(p, r.0)
    ensures forall i :: 0 <= i < |p| ==>
      r.0[i] == p[i] || (p[i].userId == userId && p[i].wordId == wordId && !p[i].isAdded && r.0[i] == Reactivated(p[i], now))
    ensures r.1 == rows || (r.1 == rows + [NewLink(id, userId, wordId, now)] && !HasLink(p, userId, wordId))
    ensures ActiveLink(r.0, userId, wordId) || (r.1 == rows + [NewLink(id, userId, wordId, now)])
    ensures HasLink(p, userId, wordId) ==> ActiveLink(r.0, userId, wordId) && r.1 == rows
  {
    match LinkIndex(p, userId, wordId)
    case None => (p, rows + [NewLink(id, userId, wordId, now)])
    case Some(i) =>
      if p[i].isAdded then (p, rows)
      else
        var q := p[i := Reactivated(p[i], now)];
        assert q[i].userId == userId && q[i].wordId == wordId && q[i].isAdded;
        (q, rows)
  }

  lemma KeysPreservedHasLink(a: seq<UserWord>, b: seq<UserWord>, userId: int, wordId: int)
    requires KeysPreserved(a, b)
    ensures HasLink(a, userId, wordId) <==> HasLink(b, userId, wordId)
  {
    if HasLink(a, userId, wordId) {
      var i :| 0 <= i < |a| && a[i].userId == userId && a[i].wordId == wordId;
      assert b[i].userId == userId && b[i].wordId == wordId;
    }
    if HasLink(b, userId, wordId) {
      var i :| 0 <= i < |b| && b[i].userId == userId && b[i].wordId == wordId;
      assert a[i].userId == userId && a[i].wordId == wordId;
    }
  }

  /** The rows a loop queued: one per word of `ids` that had no row, with increasing ids in `[start, start + |ids|)`. */
  predicate QueuedRows(pairs: seq<UserWord>, userId: int, ids: seq<int>, start: int, now: Timestamp, rows: seq<UserWord>) {
    && (forall j :: 0 <= j < |rows| ==>
          exists k :: 0 <= k < |ids| && rows[j] == NewLink(start + k, userId, ids[k], now) && !HasLink(pairs, userId, ids[k]))
    && (forall a, b :: 0 <= a < b < |rows| ==> rows[a].id < rows[b].id)
    && (forall j :: 0 <= j < |rows| ==> start <= rows[j].id < start + |ids|)
  }

  lemma QueuedRowsStep(pairs: seq<UserWord>, userId: int, ids: seq<int>, start: int, now: Timestamp, rows: seq<UserWord>)
    requires |ids| > 0
    requires QueuedRows(pairs, userId, ids[..|ids| - 1], start, now, rows)
    ensures QueuedRows(pairs, userId, ids, start, now, rows)
    ensures !HasLink(pairs, userId, ids[|ids| - 1]) ==>
      QueuedRows(pairs, userId, ids, start, now, rows + [NewLink(start + |ids| - 1, userId, ids[|ids| - 1], now)])
  {
    var k := |ids| - 1;
    forall j | 0 <= j < |rows|
      ensures exists kk :: 0 <= kk < |ids| && rows[j] == NewLink(start + kk, userId, ids[kk], now) && !HasLink(pairs, userId, ids[kk])
    {
      var kk :| 0 <= kk < k && rows[j] == NewLink(start + kk, userId, ids[..k][kk], now) && !HasLink(pairs, userId, ids[..k][kk]);
      assert ids[..k][kk] == ids[kk];
    }
    if !HasLink(pairs, userId, ids[k]) {
      var rows' := rows + [NewLink(start + k, userId, ids[k], now)];
      forall j | 0 <= j < |rows'|
        ensures exists kk :: 0 <= kk < |ids| && rows'[j] == NewLink(start + kk, userId, ids[kk], now) && !HasLink(pairs, userId, ids[kk])
      {
        if j == |rows| {
          assert rows'[j] == NewLink(start + k, userId, ids[k], now);
        } else {
          assert rows'[j] == rows[j];
        }
      }
    }
  }

  lemma {:induction false} LinkWordsRows(pairs: seq<UserWord>, userId: int, ids: seq<int>, start: int, now: Timestamp)
    ensures QueuedRows(pairs, userId, ids, start, now, LinkWords(pairs, userId, ids, start, now).1)
    decreases |ids|
  {
    if |ids| > 0 {
      var k := |ids| - 1;
      LinkWordsRows(pairs, userId, ids[..k], start, now);
      var prev := LinkWords(pairs, userId, ids[..k], start, now);
      KeysPreservedHasLink(pairs, prev.0, userId, ids[k]);
      QueuedRowsStep(pairs, userId, ids, start, now, prev.1);
    }
  }

  /** Every word of `ids` has an active row, in place or queued; one that already had a row has it in place. */
  predicate AllLinked(pairs: seq<UserWord>, userId: int, ids: seq<int>, r: (seq<UserWord>, seq<UserWord>)) {
    && (forall k :: 0 <= k < |ids| ==> ActiveLink(r.0, userId, ids[k]) || ActiveLink(r.1, userId, ids[k]))
    && (forall k :: 0 <= k < |ids| && HasLink(pairs, userId, ids[k]) ==> ActiveLink(r.0, userId, ids[k]))
  }

  lemma AllLinkedStep(pairs: seq<UserWord>, userId: int, ids: seq<int>, prev: (seq<UserWord>, seq<UserWord>), r: (seq<UserWord>, seq<UserWord>))
    requires |ids| > 0 && |prev.0| == |r.0|
    requires AllLinked(pairs, userId, ids[..|ids| - 1], prev)
    requires forall i :: 0 <= i < |prev.0| && prev.0[i].isAdded ==> r.0[i] == prev.0[i]
    requires prev.1 <= r.1
    requires ActiveLink(r.0, userId, ids[|ids| - 1]) || ActiveLink(r.1, userId, ids[|ids| - 1])
    requires HasLink(pairs, userId, ids[|ids| - 1]) ==> ActiveLink(r.0, userId, ids[|ids| - 1])
    ensures AllLinked(pairs, userId, ids, r)
  {
    var k := |ids| - 1;
    forall kk | 0 <= kk < k
      ensures (ActiveLink(r.0, userId, ids[kk]) || ActiveLink(r.1, userId, ids[kk]))
        && (HasLink(pairs, userId, ids[kk]) ==> ActiveLink(r.0, userId, ids[kk]))
    {
      assert ids[..k][kk] == ids[kk];
      if ActiveLink(prev.0, userId, ids[kk]) {
        var i :| 0 <= i < |prev.0| && prev.0[i].userId == userId && prev.0[i].wordId == ids[kk] && prev.0[i].isAdded;
        assert r.0[i] == prev.0[i];
      }
      if ActiveLink(prev.1, userId, ids[kk]) {
        var i :| 0 <= i < |prev.1| && prev.1[i].userId == userId && prev.1[i].wordId == ids[kk] && prev.1[i].isAdded;
        assert r.1[i] == prev.1[i];
      }
    }
  }

  lemma {:induction false} LinkWordsActive(pairs: seq<UserWord>, userId: int, ids: seq<int>, start: int, now: Timestamp)
    ensures AllLinked(pairs, userId, ids, LinkWords(pairs, userId, ids, start, now))
    decreases |ids|
  {
    if |ids| > 0 {
      var k := |ids| - 1;
      LinkWordsActive(pairs, userId, ids[..k], start, now);
      var prev := LinkWords(pairs, userId, ids[..k], start, now);
      var r := LinkWords(pairs, userId, ids, start, now);
      assert r == LinkStep(prev.0, prev.1, userId, ids[k], start + k, now);
      KeysPreservedHasLink(pairs, prev.0, userId, ids[k]);
      if !ActiveLink(r.0, userId, ids[k]) {
        assert r.1[|prev.1|] == NewLink(start + k, userId, ids[k], now);
      }
      AllLinkedStep(pairs, userId, ids, prev, r);
    }
  }

  /** Queued rows for distinct words of a user keep every (user, word) pair unique. */
  lemma QueuedRowsKeepPairsUnique(pairs: seq<UserWord>, userId: int, ids: seq<int>, start: int, now: Timestamp, rows: seq<UserWord>)
    requires PairsUnique(pairs) && Distinct(ids) && QueuedRows(pairs, userId, ids, start, now, rows)
    ensures PairsUnique(pairs + rows)
  {
    var all := pairs + rows;
    var n := |pairs|;
    forall i, j | 0 <= i < j < |all| ensures !(all[i].userId == all[j].userId && all[i].wordId == all[j].wordId) {
      if j >= n {
        assert all[j] == rows[j - n];
        var kj :| 0 <= kj < |ids| && rows[j - n] == NewLink(start + kj, userId, ids[kj], now) && !HasLink(pairs, userId, ids[kj]);
        if i >= n {
          assert all[i] == rows[i - n];
          var ki :| 0 <= ki < |ids| && rows[i - n] == NewLink(start + ki, userId, ids[ki], now) && !HasLink(pairs, userId, ids[ki]);
          assert rows[i - n].id < rows[j - n].id;
          assert ki != kj;
        }
      }
    }
  }

  /** The words `add_user_word` goes on to link. */
  predicate LinkTarget(t: Tables, d: WordDraft, w: Word) {
    (d.enWord == "" || w.enWord == d.enWord) && w.isAddedByUsers == (|GetWords(t, d.enWord, false)| == 0)
  }

  /**
   * The words `add_user_word` links: the developer's words with that `en_word` or, when
   * there are none, the users' words with it after `add_word(data_dict, True)`;
   * `None` when that `add_word` raised.
   */
  function WordsToLink(t: Tables, d: WordDraft): (r: Option<(Tables, seq<Word>)>)
    ensures r.None? <==> |GetWords(t, d.enWord, false)| == 0 && AddWord(t, d, true).1 == Refused
    ensures r.Some? ==> r.value.0 == if |GetWords(t, d.enWord, false)| > 0 then t else AddWord(t, d, true).0
    ensures r.Some? ==> forall w :: w in r.value.1 <==> w in r.value.0.words && LinkTarget(t, d, w)
  {
    var curated := GetWords(t, d.enWord, false);
    if |curated| > 0 then Some((t, curated))
    else
      var added := AddWord(t, d, true);
      if added.1 == Refused then None else Some((added.0, GetWords(added.0, d.enWord, true)))
  }

  lemma GetWordsIdsDistinct(t: Tables, enWord: string, byUser: bool)
    requires Distinct(WordIds(t.words))
    ensures Distinct(WordIds(GetWords(t, enWord, byUser)))
    ensures forall x :: x in WordIds(GetWords(t, enWord, byUser)) ==> x in WordIds(t.words)
  {
    FilteredWordIdsDistinct(t.words, (w: Word) => w.isAddedByUsers == byUser && (enWord == "" || w.enWord == enWord));
  }

  /** With the same keys in place, the queued rows keep (user, word) pairs unique. */
  lemma NewRowsUnique(orig: seq<UserWord>, linked: (seq<UserWord>, seq<UserWord>), userId: int, ids: seq<int>, start: int, now: Timestamp)
    requires PairsUnique(orig) && KeysPreserved(orig, linked.0) && Distinct(ids)
    requires QueuedRows(orig, userId, ids, start, now, linked.1)
    ensures PairsUnique(linked.0 + linked.1)
  {
    var rows := linked.1;
    forall j | 0 <= j < |rows|
      ensures exists k :: 0 <= k < |ids| && rows[j] == NewLink(start + k, userId, ids[k], now) && !HasLink(linked.0, userId, ids[k])
    {
      var k :| 0 <= k < |ids| && rows[j] == NewLink(start + k, userId, ids[k], now) && !HasLink(orig, userId, ids[k]);
      KeysPreservedHasLink(orig, linked.0, userId, ids[k]);
    }
    KeysPreservedPairsUnique(orig, linked.0);
    assert forall a, b :: 0 <= a < b < |rows| ==> rows[a].id < rows[b].id;
    assert forall j :: 0 <= j < |rows| ==> start <= rows[j].id < start + |ids|;
    assert QueuedRows(linked.0, userId, ids, start, now, rows);
    QueuedRowsKeepPairsUnique(linked.0, userId, ids, start, now, rows);
  }

  lemma LinkedWordsActive(pairs: seq<UserWord>, userId: int, words: seq<Word>, linked: (seq<UserWord>, seq<UserWord>))
    requires AllLinked(pairs, userId, WordIds(words), linked)
    ensures forall w :: w in words ==> ActiveLink(linked.0 + linked.1, userId, w.id)
  {
    forall w | w in words ensures ActiveLink(linked.0 + linked.1, userId, w.id) {
      var k :| 0 <= k < |words| && words[k] == w;
      assert WordIds(words)[k] == w.id;
      var all := linked.0 + linked.1;
      if ActiveLink(linked.0, userId, w.id) {
        var i :| 0 <= i < |linked.0| && linked.0[i].userId == userId && linked.0[i].wordId == w.id && linked.0[i].isAdded;
        assert all[i] == linked.0[i];
      } else {
        var i :| 0 <= i < |linked.1| && linked.1[i].userId == userId && linked.1[i].wordId == w.id && linked.1[i].isAdded;
        assert all[|linked.0| + i] == linked.1[i];
      }
    }
  }

  /** The second half of `add_user_word`: the linking loop, then the bulk insert of the queued rows. */
  function LinkAll(t: Tables, userId: int, words: seq<Word>, now: Timestamp): (r: Tables)
    ensures r.pos == t.pos && r.words == t.words && r.users == t.users
    ensures PairIds(t.usersWords) <= PairIds(r.usersWords)
    ensures forall i :: 0 <= i < |t.usersWords| ==> (r.usersWords[i] == t.usersWords[i]
      || (t.usersWords[i].userId == userId && t.usersWords[i].wordId in WordIds(words) && !t.usersWords[i].isAdded
          && r.usersWords[i] == Reactivated(t.usersWords[i], now)))
    ensures QueuedRows(t.usersWords, userId, WordIds(words), NextId(PairIds(t.usersWords)), now, r.usersWords[|t.usersWords|..])
  {
    if |words| == 0 then t
    else
      var start := NextId(PairIds(t.usersWords));
      var linked := LinkWords(t.usersWords, userId, WordIds(words), start, now);
      var t2 := t.(usersWords := linked.0);
      assert PairIds(linked.0) == PairIds(t.usersWords);
      LinkWordsRows(t.usersWords, userId, WordIds(words), start, now);
      if |linked.1| > 0 && BulkAccepted(t2, linked.1) then
        PairIdsAppend(linked.0, linked.1);
        assert (linked.0 + linked.1)[|t.usersWords|..] == linked.1;
        t2.(usersWords := linked.0 + linked.1)
      else
        assert linked.0[|t.usersWords|..] == [];
        t2
  }

  /** Words of the database with distinct ids. */
  predicate KnownWords(t: Tables, words: seq<Word>) {
    Distinct(WordIds(words)) && forall x :: x in WordIds(words) ==> x in WordIds(t.words)
  }

  lemma LinkAllKeepsInvariant(t: Tables, userId: int, words: seq<Word>, now: Timestamp)
    requires Invariant(t) && KnownWords(t, words)
    ensures Invariant(LinkAll(t, userId, words, now))
  {
    if |words| > 0 {
      var ids := WordIds(words);
      var start := NextId(PairIds(t.usersWords));
      var linked := LinkWords(t.usersWords, userId, ids, start, now);
      KeysPreservedKeepsValid(t, linked.0);
      if |linked.1| > 0 && BulkAccepted(t.(usersWords := linked.0), linked.1) {
        LinkWordsRows(t.usersWords, userId, ids, start, now);
        NewRowsUnique(t.usersWords, linked, userId, ids, start, now);
      }
    }
  }

  /** A known user ends up with an active row for every one of the words: the bulk insert is never refused. */
  lemma LinkAllActivates(t: Tables, userId: int, words: seq<Word>, now: Timestamp)
    requires Invariant(t) && KnownWords(t, words) && userId in UserIds(t.users)
    ensures forall w :: w in words ==> ActiveLink(LinkAll(t, userId, words, now).usersWords, userId, w.id)
  {
    if |words| > 0 {
      var ids := WordIds(words);
      var start := NextId(PairIds(t.usersWords));
      var linked := LinkWords(t.usersWords, userId, ids, start, now);
      var t2 := t.(usersWords := linked.0);
      LinkWordsActive(t.usersWords, userId, ids, start, now);
      LinkWordsRows(t.usersWords, userId, ids, start, now);
      if |linked.1| > 0 {
        forall a | 0 <= a < |linked.1| ensures linked.1[a].userId in UserIds(t2.users) && linked.1[a].wordId in WordIds(t2.words) {
          var k :| 0 <= k < |ids| && linked.1[a] == NewLink(start + k, userId, ids[k], now) && !HasLink(t.usersWords, userId, ids[k]);
        }
        assert PairIds(linked.0) == PairIds(t.usersWords);
        FreshRowsAccepted(t2, linked.1);
      } else {
        assert linked.0 + linked.1 == linked.0;
      }
      LinkedWordsActive(t.usersWords, userId, words, linked);
    }
  }

  /**
   * `add_user_word`: links the user to those words. A word without a row gets a new active
   * row (`is_user_word = True`); an inactive row is made active again in place, keeping its id.
   */
  function AddUserWord(t: Tables, userId: int, d: WordDraft, now: Timestamp): (r: (Tables, Outcome))
    ensures r.1 == Skipped <==> |GetUsers(t, userId)| == 0
    ensures r.1 == Refused <==>
      (|GetUsers(t, userId)| > 0 && |GetWords(t, d.enWord, false)| == 0 && HasPosNamed(t.pos, d.posName) && !DraftStorable(d))
    ensures r.1 != Done ==> r.0 == t
    ensures r.0.pos == t.pos && r.0.users == t.users
    ensures PairIds(t.usersWords) <= PairIds(r.0.usersWords)
    ensures Invariant(t) ==> Invariant(r.0)
    ensures Invariant(t) && userId in UserIds(t.users) && r.1 == Done ==>
      forall w :: w in r.0.words && LinkTarget(t, d, w) ==> ActiveLink(r.0.usersWords, userId, w.id)
    ensures r.1 == Done ==> r.0.words == if |GetWords(t, d.enWord, false)| > 0 then t.words else AddWord(t, d, true).0.words
    ensures r.1 == Done ==> r.0 == LinkAll(WordsToLink(t, d).value.0, userId, WordsToLink(t, d).value.1, now)
    ensures r.1 == Done ==> forall i :: 0 <= i < |t.usersWords| ==> (r.0.usersWords[i] == t.usersWords[i]
      || (t.usersWords[i].userId == userId && !t.usersWords[i].isAdded && r.0.usersWords[i] == Reactivated(t.usersWords[i], now)))
    ensures r.1 == Done ==>
      QueuedRows(t.usersWords, userId, WordIds(WordsToLink(t, d).value.1), NextId(PairIds(t.usersWords)), now, r.0.usersWords[|t.usersWords|..])
  {
    if |GetUsers(t, userId)| == 0 then (t, Skipped)
    else
      match WordsToLink(t, d)
      case None => (t, Refused)
      case Some((t1, words)) =>
        var r := LinkAll(t1, userId, words, now);
        assert Invariant(t) ==> (Invariant(r)
            && (userId in UserIds(t.users) ==> forall w :: w in words ==> ActiveLink(r.usersWords, userId, w.id))) by {
          if Invariant(t) {
            if |GetWords(t, d.enWord, false)| > 0 {
              GetWordsIdsDistinct(t, d.enWord, false);
            } else {
              GetWordsIdsDistinct(t1, d.enWord, true);
            }
            LinkAllKeepsInvariant(t1, userId, words, now);
            if userId in UserIds(t.users) {
              LinkAllActivates(t1, userId, words, now);
            }
          }
        }
        (r, Done)
  }

  /** A row made inactive: `is_added` cleared, `date_added` cleared, `date_deleted` set. */
  function Deactivated(p: UserWord, now: Timestamp): (r: UserWord)
    ensures !r.isAdded && r.dateAdded.None? && r.dateDeleted == Some(now)
    ensures r.id == p.id && r.userId == p.userId && r.wordId == p.wordId && r.isUserWord == p.isUserWord
  {
    p.(isAdded := false, dateAdded := None, dateDeleted := Some(now))
  }

  lemma KeysPreservedPairsUnique(a: seq<UserWord>, b: seq<UserWord>)
    requires KeysPreserved(a, b) && PairsUnique(a)
    ensures PairsUnique(b)
  {
  }

  /** With unique (user, word) pairs, a key picks out one row. */
  lemma SameKeySameRow(p: seq<UserWord>, i: nat, j: nat)
    requires PairsUnique(p) && i < |p| && j < |p|
    requires p[i].userId == p[j].userId && p[i].wordId == p[j].wordId
    ensures i == j
  {
  }

  /** One turn of the loop of `remove_user_word`: the first active row of the user for the word is deactivated. */
  function DeactivateStep(p: seq<UserWord>, userId: int, wordId: int, now: Timestamp): (r: seq<UserWord>)
    ensures KeysPreserved(p, r)
    ensures forall i :: 0 <= i < |p| ==>
      r[i] == p[i] || (p[i].userId == userId && p[i].wordId == wordId && p[i].isAdded && r[i] == Deactivated(p[i], now))
    ensures PairsUnique(p) ==> !ActiveLink(r, userId, wordId)
  {
    match ActiveLinkIndex(p, userId, wordId)
    case None => p
    case Some(i) =>
      var r := p[i := Deactivated(p[i], now)];
      assert PairsUnique(p) ==> !ActiveLink(r, userId, wordId) by {
        if PairsUnique(p) {
          forall j | 0 <= j < |r| && r[j].userId == userId && r[j].wordId == wordId ensures !r[j].isAdded {
            SameKeySameRow(p, i, j);
          }
        }
      }
      r
  }

  /** The loop of `remove_user_word` over `ids`. */
  function DeactivateAll(pairs: seq<UserWord>, userId: int, ids: seq<int>, now: Timestamp): (r: seq<UserWord>)
    ensures KeysPreserved(pairs, r)
    ensures forall i :: 0 <= i < |pairs| ==>
      r[i] == pairs[i] || (pairs[i].userId == userId && pairs[i].wordId in ids && pairs[i].isAdded && r[i] == Deactivated(pairs[i], now))
    decreases |ids|
  {
    if |ids| == 0 then pairs
    else
      var k := |ids| - 1;
      assert forall x :: x in ids[..k] ==> x in ids;
      DeactivateStep(DeactivateAll(pairs, userId, ids[..k], now), userId, ids[k], now)
  }

  /** The loop of `remove_user_word` after one more word. */
  lemma DeactivateAllNext(pairs: seq<UserWord>, userId: int, ids: seq<int>, k: nat, now: Timestamp)
    requires k < |ids|
    ensures DeactivateAll(pairs, userId, ids[..k + 1], now)
         == DeactivateStep(DeactivateAll(pairs, userId, ids[..k], now), userId, ids[k], now)
  {
    assert ids[..k + 1][..k] == ids[..k];
  }

  /** After the loop no word of `ids` is active for the user (each (user, word) has one row at most). */
  lemma {:induction false} DeactivateAllClears(pairs: seq<UserWord>, userId: int, ids: seq<int>, now: Timestamp)
    requires PairsUnique(pairs)
    ensures forall x :: x in ids ==> !ActiveLink(DeactivateAll(pairs, userId, ids, now), userId, x)
    decreases |ids|
  {
    if |ids| > 0 {
      var k := |ids| - 1;
      DeactivateAllClears(pairs, userId, ids[..k], now);
      var p := DeactivateAll(pairs, userId, ids[..k], now);
      var r := DeactivateAll(pairs, userId, ids, now);
      KeysPreservedPairsUnique(pairs, p);
      assert r == DeactivateStep(p, userId, ids[k], now);
      forall x | x in ids ensures !ActiveLink(r, userId, x) {
        if x != ids[k] {
          assert x in ids[..k] by {
            var j :| 0 <= j < |ids| && ids[j] == x;
            assert ids[..k][j] == x;
          }
          forall i | 0 <= i < |r| && r[i].userId == userId && r[i].wordId == x ensures !r[i].isAdded {
            assert r[i] == p[i];
          }
        }
      }
    }
  }

  /** The words `remove_user_word` and `delete_user_word_pair` look up: the developer's, then the users'. */
  function NamedWordIds(t: Tables, enWord: string): (r: seq<int>)
    ensures forall w :: w in t.words && (enWord == "" || w.enWord == enWord) ==> w.id in r
    ensures forall x :: x in r ==> exists w :: w in t.words && (enWord == "" || w.enWord == enWord) && w.id == x
  {
    var found := GetWords(t, enWord, false) + GetWords(t, enWord, true);
    var r := WordIds(found);
    assert forall w :: w in t.words && (enWord == "" || w.enWord == enWord) ==> w.id in r by {
      forall w | w in t.words && (enWord == "" || w.enWord == enWord) ensures w.id in r {
        assert w in found;
        var k :| 0 <= k < |found| && found[k] == w;
        assert r[k] == w.id;
      }
    }
    assert forall x :: x in r ==> exists w :: w in t.words && (enWord == "" || w.enWord == enWord) && w.id == x by {
      forall x | x in r ensures exists w :: w in t.words && (enWord == "" || w.enWord == enWord) && w.id == x {
        var k :| 0 <= k < |r| && r[k] == x;
        assert found[k] in found;
      }
    }
    r
  }

  /**
   * `remove_user_word`: every active row of the user for a word with that `en_word`
   * (all words when it is empty) becomes inactive; rows keep their ids.
   */
  function RemoveUserWord(t: Tables, userId: int, enWord: string, now: Timestamp): (r: Tables)
    ensures r.pos == t.pos && r.words == t.words && r.users == t.users
    ensures KeysPreserved(t.usersWords, r.usersWords)
    ensures forall i :: 0 <= i < |t.usersWords| ==>
      r.usersWords[i] == t.usersWords[i]
      || (t.usersWords[i].userId == userId && t.usersWords[i].isAdded && r.usersWords[i] == Deactivated(t.usersWords[i], now)
          && exists w :: w in t.words && (enWord == "" || w.enWord == enWord) && w.id == t.usersWords[i].wordId)
    ensures PairsUnique(t.usersWords) ==>
      forall w :: w in t.words && (enWord == "" || w.enWord == enWord) ==> !ActiveLink(r.usersWords, userId, w.id)
    ensures Invariant(t) ==> Invariant(r)
  {
    var ids := NamedWordIds(t, enWord);
    var r := t.(usersWords := DeactivateAll(t.usersWords, userId, ids, now));
    assert PairsUnique(t.usersWords) ==> forall x :: x in ids ==> !ActiveLink(r.usersWords, userId, x) by {
      if PairsUnique(t.usersWords) { DeactivateAllClears(t.usersWords, userId, ids, now); }
    }
    assert Invariant(t) ==> Invariant(r) by {
      if Invariant(t) { KeysPreservedKeepsValid(t, r.usersWords); }
    }
    r
  }

  /** One turn of the loop of `delete_user_word_pair`: the first row of the user for the word is deleted. */
  function UnlinkStep(p: seq<UserWord>, userId: int, wordId: int): (r: seq<UserWord>)
    ensures forall x :: x in r ==> x in p
    ensures PairsUnique(p) ==> PairsUnique(r)
    ensures Distinct(PairIds(p)) ==> Distinct(PairIds(r))
    ensures PairsUnique(p) ==> forall x :: x in r <==> x in p && !(x.userId == userId && x.wordId == wordId)
  {
    match LinkIndex(p, userId, wordId)
    case None => p
    case Some(i) =>
      var r := RemoveAt(p, i);
      assert PairsUnique(p) ==> PairsUnique(r) by {
        if PairsUnique(p) {
          RemoveAtPairwise(p, i, (a: UserWord, b: UserWord) => !(a.userId == b.userId && a.wordId == b.wordId));
        }
      }
      assert Distinct(PairIds(p)) ==> Distinct(PairIds(r)) by {
        if Distinct(PairIds(p)) {
          RemoveAtPairwise(p, i, (a: UserWord, b: UserWord) => a.id != b.id);
        }
      }
      assert PairsUnique(p) ==> forall x :: x in r <==> x in p && !(x.userId == userId && x.wordId == wordId) by {
        if PairsUnique(p) { RemoveAtDropsKey(p, i); }
      }
      r
  }

  /** Deleting row `i` removes exactly the rows with its (user, word) pair, since there is only one. */
  lemma RemoveAtDropsKey(p: seq<UserWord>, i: nat)
    requires i < |p| && PairsUnique(p)
    ensures forall x :: x in RemoveAt(p, i) <==> x in p && !(x.userId == p[i].userId && x.wordId == p[i].wordId)
  {
    var r := RemoveAt(p, i);
    forall x | x in p && !(x.userId == p[i].userId && x.wordId == p[i].wordId) ensures x in r {
      var j :| 0 <= j < |p| && p[j] == x;
      if j < i { assert r[j] == x; } else { assert r[j - 1] == x; }
    }
    forall x | x in r ensures x in p && !(x.userId == p[i].userId && x.wordId == p[i].wordId) {
      var j :| 0 <= j < |r| && r[j] == x;
      var j' := if j < i then j else j + 1;
      assert x == p[j'];
      assert j' != i;
    }
  }

  /** The loop of `delete_user_word_pair` after one more word. */
  lemma UnlinkAllNext(pairs: seq<UserWord>, userId: int, ids: seq<int>, k: nat)
    requires k < |ids|
    ensures UnlinkAll(pairs, userId, ids[..k + 1]) == UnlinkStep(UnlinkAll(pairs, userId, ids[..k]), userId, ids[k])
  {
    assert ids[..k + 1][..k] == ids[..k];
  }

  /** The loop of `delete_user_word_pair` over `ids`. */
  function UnlinkAll(pairs: seq<UserWord>, userId: int, ids: seq<int>): (r: seq<UserWord>)
    ensures forall x :: x in r ==> x in pairs
    ensures PairsUnique(pairs) ==> PairsUnique(r)
    ensures Distinct(PairIds(pairs)) ==> Distinct(PairIds(r))
    ensures PairsUnique(pairs) ==> forall x :: x in r <==> x in pairs && !(x.userId == userId && x.wordId in ids)
    decreases |ids|
  {
    if |ids| == 0 then pairs
    else
      var k := |ids| - 1;
      assert forall x :: x in ids <==> x in ids[..k] || x == ids[k] by {
        assert ids == ids[..k] + [ids[k]];
      }
      UnlinkStep(UnlinkAll(pairs, userId, ids[..k]), userId, ids[k])
  }

  /** `delete_user_word_pair`: deletes the user's rows for the words with that `en_word` (all words when it is empty). */
  function DeleteUserWordPair(t: Tables, userId: int, enWord: string): (r: Tables)
    ensures r.pos == t.pos && r.words == t.words && r.users == t.users
    ensures forall x :: x in r.usersWords ==> x in t.usersWords
    ensures PairsUnique(t.usersWords) ==> forall x :: x in r.usersWords <==>
      x in t.usersWords && !(x.userId == userId && exists w :: w in t.words && (enWord == "" || w.enWord == enWord) && w.id == x.wordId)
    ensures Invariant(t) ==> Invariant(r)
  {
    var ids := NamedWordIds(t, enWord);
    var r := t.(usersWords := UnlinkAll(t.usersWords, userId, ids));
    assert Invariant(t) ==> Invariant(r) by {
      if Invariant(t) {
        forall i | 0 <= i < |r.usersWords| ensures r.usersWords[i].userId in UserIds(t.users) && r.usersWords[i].wordId in WordIds(t.words) {
          var x := r.usersWords[i];
          assert x in t.usersWords;
          var j :| 0 <= j < |t.usersWords| && t.usersWords[j] == x;
        }
      }
    }
    r
  }

  // ---------------------------------------------------------------- queries over users_words

  /** The user's row `p` joined with its word, when it is active and the word exists (words ⋈ users_words). */
  function WordRowFor(t: Tables, p: UserWord, userId: int): (r: seq<(Word, UserWord)>)
    ensures |r| <= 1
    ensures forall k :: 0 <= k < |r| ==> r[k].1 == p && p.userId == userId && p.isAdded && r[k].0 in t.words && r[k].0.id == p.wordId
    ensures p.userId == userId && p.isAdded && p.wordId in WordIds(t.words) ==> |r| == 1
  {
    if p.userId == userId && p.isAdded then
      match FirstIndex(t.words, (w: Word) => w.id == p.wordId)
      case None => []
      case Some(i) => [(t.words[i], p)]
    else []
  }

  /** words ⋈ users_words, restricted to the user's active rows, in `users_words` order. */
  function JoinWordRows(t: Tables, pairs: seq<UserWord>, userId: int): (r: seq<(Word, UserWord)>)
    ensures |r| <= |pairs|
    ensures forall k :: 0 <= k < |r| ==>
      r[k].1 in pairs && r[k].1.userId == userId && r[k].1.isAdded && r[k].0 in t.words && r[k].0.id == r[k].1.wordId
    decreases |pairs|
  {
    if |pairs| == 0 then []
    else
      var front := pairs[..|pairs| - 1];
      assert forall x :: x in front ==> x in pairs;
      JoinWordRows(t, front, userId) + WordRowFor(t, pairs[|pairs| - 1], userId)
  }

  /** With distinct word ids, an active row of the user joins exactly with the word of its id. */
  lemma WordRowForHits(t: Tables, p: UserWord, userId: int, j: nat)
    requires Distinct(WordIds(t.words)) && j < |t.words|
    requires p.userId == userId && p.isAdded && t.words[j].id == p.wordId
    ensures WordRowFor(t, p, userId) == [(t.words[j], p)]
  {
    var k := FirstIndex(t.words, (w: Word) => w.id == p.wordId);
    assert WordIds(t.words)[j] == p.wordId;
    assert k.Some?;
    assert WordIds(t.words)[k.value] == WordIds(t.words)[j];
  }

  /** Every active row of the user whose word exists appears in the join, with that word (word ids are distinct). */
  lemma {:induction false} JoinWordRowsComplete(t: Tables, pairs: seq<UserWord>, userId: int)
    requires Distinct(WordIds(t.words))
    ensures forall i, j ::
      (0 <= i < |pairs| && 0 <= j < |t.words| && pairs[i].userId == userId && pairs[i].isAdded && t.words[j].id == pairs[i].wordId)
      ==> (t.words[j], pairs[i]) in JoinWordRows(t, pairs, userId)
    decreases |pairs|
  {
    if |pairs| > 0 {
      var n := |pairs| - 1;
      var front := pairs[..n];
      JoinWordRowsComplete(t, front, userId);
      var head := JoinWordRows(t, front, userId);
      var r := JoinWordRows(t, pairs, userId);
      assert r == head + WordRowFor(t, pairs[n], userId);
      forall i, j | 0 <= i < |pairs| && 0 <= j < |t.words| && pairs[i].userId == userId && pairs[i].isAdded && t.words[j].id == pairs[i].wordId
        ensures (t.words[j], pairs[i]) in r
      {
        if i < n {
          assert front[i] == pairs[i];
          assert (t.words[j], pairs[i]) in head;
        } else {
          WordRowForHits(t, pairs[n], userId, j);
          assert r == head + [(t.words[j], pairs[n])];
        }
      }
    }
  }

  /** The joined (word, pos, row) triple for `p`, with the part-of-speech filter when one is given. */
  function RowFor(t: Tables, p: UserWord, userId: int, posName: Option<string>): (r: seq<(Word, Pos, UserWord)>)
    ensures |r| <= 1
    ensures forall k :: 0 <= k < |r| ==> JoinedRow(t, r[k], userId, posName) && r[k].2 == p
    ensures p.userId == userId && p.isAdded && p.wordId in WordIds(t.words) && WordsTableValid(t.words, t.pos) && posName.None? ==> |r| == 1
  {
    var wr := WordRowFor(t, p, userId);
    if |wr| == 0 then []
    else
      var w := wr[0].0;
      match FirstIndex(t.pos, (q: Pos) => q.id == w.idPos)
      case None => []
      case Some(j) => if posName.None? || t.pos[j].posName == posName.value then [(w, t.pos[j], p)] else []
  }

  predicate JoinedRow(t: Tables, row: (Word, Pos, UserWord), userId: int, posName: Option<string>) {
    && row.2.userId == userId && row.2.isAdded
    && row.0 in t.words && row.0.id == row.2.wordId
    && row.1 in t.pos && row.1.id == row.0.idPos
    && (posName.None? || row.1.posName == posName.value)
  }

  /** words ⋈ pos ⋈ users_words for the user's active rows, in `users_words` order (the query of `get_user_words`). */
  function JoinRows(t: Tables, pairs: seq<UserWord>, userId: int, posName: Option<string>): (r: seq<(Word, Pos, UserWord)>)
    ensures |r| <= |pairs|
    ensures forall k :: 0 <= k < |r| ==> JoinedRow(t, r[k], userId, posName) && r[k].2 in pairs
    decreases |pairs|
  {
    if |pairs| == 0 then []
    else
      var front := pairs[..|pairs| - 1];
      assert forall x :: x in front ==> x in pairs;
      JoinRows(t, front, userId, posName) + RowFor(t, pairs[|pairs| - 1], userId, posName)
  }

  /** How many active rows the user has. */
  function CountActive(pairs: seq<UserWord>, userId: int): nat
    decreases |pairs|
  {
    if |pairs| == 0 then 0
    else CountActive(pairs[..|pairs| - 1], userId) + (if pairs[|pairs| - 1].userId == userId && pairs[|pairs| - 1].isAdded then 1 else 0)
  }

  /** In a valid database, the unfiltered join has one row per active row of the user. */
  lemma {:induction false} JoinRowsCount(t: Tables, pairs: seq<UserWord>, userId: int)
    requires SchemaValid(t)
    requires forall i :: 0 <= i < |pairs| ==> pairs[i].wordId in WordIds(t.words)
    ensures |JoinRows(t, pairs, userId, None)| == CountActive(pairs, userId)
    decreases |pairs|
  {
    if |pairs| > 0 {
      var front := pairs[..|pairs| - 1];
      assert forall i :: 0 <= i < |front| ==> front[i] == pairs[i];
      JoinRowsCount(t, front, userId);
    }
  }

  /** `p` is an active row of the user, `w` its word and `q` the word's part of speech, which passes the filter. */
  predicate Matches(p: UserWord, w: Word, q: Pos, userId: int, posName: Option<string>) {
    p.userId == userId && p.isAdded && w.id == p.wordId && q.id == w.idPos && (posName.None? || q.posName == posName.value)
  }

  /** With distinct word and pos ids, an active row of the user whose word's pos passes the filter joins to that word and pos. */
  lemma RowForHits(t: Tables, p: UserWord, userId: int, posName: Option<string>, j: nat, q: nat)
    requires Distinct(WordIds(t.words)) && Distinct(PosIds(t.pos)) && j < |t.words| && q < |t.pos|
    requires Matches(p, t.words[j], t.pos[q], userId, posName)
    ensures RowFor(t, p, userId, posName) == [(t.words[j], t.pos[q], p)]
  {
    WordRowForHits(t, p, userId, j);
    var k := FirstIndex(t.pos, (x: Pos) => x.id == t.words[j].idPos);
    assert PosIds(t.pos)[q] == t.words[j].idPos;
    assert k.Some?;
    assert PosIds(t.pos)[k.value] == PosIds(t.pos)[q];
  }

  /** Every active row of the user whose word's part of speech passes the filter is joined, with that word and pos. */
  lemma {:induction false} JoinRowsComplete(t: Tables, pairs: seq<UserWord>, userId: int, posName: Option<string>)
    requires Distinct(WordIds(t.words)) && Distinct(PosIds(t.pos))
    ensures forall i, j, q :: 0 <= i < |pairs| && 0 <= j < |t.words| && 0 <= q < |t.pos| && Matches(pairs[i], t.words[j], t.pos[q], userId, posName) ==>
      (t.words[j], t.pos[q], pairs[i]) in JoinRows(t, pairs, userId, posName)
    decreases |pairs|
  {
    if |pairs| > 0 {
      var n := |pairs| - 1;
      var front := pairs[..n];
      JoinRowsComplete(t, front, userId, posName);
      var head := JoinRows(t, front, userId, posName);
      var r := JoinRows(t, pairs, userId, posName);
      assert r == head + RowFor(t, pairs[n], userId, posName);
      forall i, j, q | 0 <= i < |pairs| && 0 <= j < |t.words| && 0 <= q < |t.pos| && Matches(pairs[i], t.words[j], t.pos[q], userId, posName)
        ensures (t.words[j], t.pos[q], pairs[i]) in r
      {
        if i < n {
          assert front[i] == pairs[i];
          assert (t.words[j], t.pos[q], pairs[i]) in head;
        } else {
          RowForHits(t, pairs[n], userId, posName, j, q);
          assert r == head + [(t.words[j], t.pos[q], pairs[n])];
        }
      }
    }
  }

  /**
   * In a valid database `get_user_words` misses no active row of the user: with a part-of-speech
   * filter, every active word of that part of speech is listed.
   */
  lemma GetUserWordsComplete(t: Tables, userId: int, posName: Option<string>)
    requires SchemaValid(t)
    ensures forall i, j, q :: 0 <= i < |t.usersWords| && 0 <= j < |t.words| && 0 <= q < |t.pos| && Matches(t.usersWords[i], t.words[j], t.pos[q], userId, posName) ==>
      ViewOf(t.words[j], t.pos[q]) in GetUserWords(t, userId, posName)
  {
    var rows := JoinRows(t, t.usersWords, userId, posName);
    var r := GetUserWords(t, userId, posName);
    JoinRowsComplete(t, t.usersWords, userId, posName);
    forall i, j, q | 0 <= i < |t.usersWords| && 0 <= j < |t.words| && 0 <= q < |t.pos|
      && Matches(t.usersWords[i], t.words[j], t.pos[q], userId, posName)
      ensures ViewOf(t.words[j], t.pos[q]) in r
    {
      var k :| 0 <= k < |rows| && rows[k] == (t.words[j], t.pos[q], t.usersWords[i]);
      assert r[k] == ViewOf(t.words[j], t.pos[q]);
    }
  }

  /** `get_user_words`: the user's active words, each with its part of speech. */
  function GetUserWords(t: Tables, userId: int, posName: Option<string>): (r: seq<UserWordView>)
    ensures |r| == |JoinRows(t, t.usersWords, userId, posName)|
    ensures forall k :: 0 <= k < |r| ==>
      r[k] == ViewOf(JoinRows(t, t.usersWords, userId, posName)[k].0, JoinRows(t, t.usersWords, userId, posName)[k].1)
    ensures SchemaValid(t) && posName.None? ==> |r| == CountActive(t.usersWords, userId)
  {
    var rows := JoinRows(t, t.usersWords, userId, posName);
    assert SchemaValid(t) && posName.None? ==> |rows| == CountActive(t.usersWords, userId) by {
      if SchemaValid(t) && posName.None? { JoinRowsCount(t, t.usersWords, userId); }
    }
    seq(|rows|, k requires 0 <= k < |rows| => ViewOf(rows[k].0, rows[k].1))
  }

  /** One dictionary of `get_user_words`. */
  function ViewOf(w: Word, q: Pos): UserWordView {
    UserWordView(w.enWord, w.enTrans, w.mp3Url, q.posName, w.ruWord, w.enExample, w.ruExample)
  }

  /** The `en_word` of each word. */
  function EnWords(words: seq<Word>): (r: seq<string>)
    ensures |r| == |words| && forall k :: 0 <= k < |words| ==> r[k] == words[k].enWord
  {
    seq(|words|, k requires 0 <= k < |words| => words[k].enWord)
  }

  /** `SELECT DISTINCT en_word FROM words WHERE id IN ids`. */
  function DistinctEnWords(t: Tables, ids: seq<int>): (r: seq<string>)
    ensures Distinct(r)
    ensures forall x :: x in r <==> exists w :: w in t.words && w.id in ids && w.enWord == x
  {
    var found := Filter(t.words, (w: Word) => w.id in ids);
    var r := Dedup(EnWords(found));
    assert forall x :: x in r <==> exists w :: w in t.words && w.id in ids && w.enWord == x by {
      forall x ensures x in r <==> exists w :: w in t.words && w.id in ids && w.enWord == x {
        if x in r {
          var k :| 0 <= k < |found| && EnWords(found)[k] == x;
          assert found[k] in found;
        }
        if exists w :: w in t.words && w.id in ids && w.enWord == x {
          var w :| w in t.words && w.id in ids && w.enWord == x;
          var k :| 0 <= k < |found| && found[k] == w;
          assert EnWords(found)[k] == x;
        }
      }
    }
    r
  }

  /** The user has an active row for a word with this `en_word`. */
  predicate UserHasEnWord(t: Tables, userId: int, x: string) {
    exists i, j :: 0 <= i < |t.usersWords| && 0 <= j < |t.words| && t.usersWords[i].userId == userId && t.usersWords[i].isAdded
      && t.words[j].id == t.usersWords[i].wordId && t.words[j].enWord == x
  }

  /** The word ids of joined rows, and the `users_words` ids of the same rows. */
  function JoinedWordIds(rows: seq<(Word, UserWord)>): (r: seq<int>)
    ensures |r| == |rows| && forall k :: 0 <= k < |rows| ==> r[k] == rows[k].0.id
  {
    seq(|rows|, k requires 0 <= k < |rows| => rows[k].0.id)
  }

  function JoinedRowIds(rows: seq<(Word, UserWord)>): (r: seq<int>)
    ensures |r| == |rows| && forall k :: 0 <= k < |rows| ==> r[k] == rows[k].1.id
  {
    seq(|rows|, k requires 0 <= k < |rows| => rows[k].1.id)
  }

  lemma UserEnWordsFromJoin(t: Tables, userId: int, x: string)
    requires Distinct(WordIds(t.words)) && UserHasEnWord(t, userId, x)
    ensures exists w :: w in t.words && w.id in JoinedWordIds(JoinWordRows(t, t.usersWords, userId)) && w.enWord == x
  {
    var rows := JoinWordRows(t, t.usersWords, userId);
    JoinWordRowsComplete(t, t.usersWords, userId);
    var i, j :| 0 <= i < |t.usersWords| && 0 <= j < |t.words| && t.usersWords[i].userId == userId && t.usersWords[i].isAdded
      && t.words[j].id == t.usersWords[i].wordId && t.words[j].enWord == x;
    var k :| 0 <= k < |rows| && rows[k] == (t.words[j], t.usersWords[i]);
    assert JoinedWordIds(rows)[k] == t.words[j].id;
    assert t.words[j] in t.words;
  }

  lemma JoinToUserEnWords(t: Tables, userId: int, w: Word)
    requires Distinct(WordIds(t.words))
    requires w in t.words && w.id in JoinedWordIds(JoinWordRows(t, t.usersWords, userId))
    ensures UserHasEnWord(t, userId, w.enWord)
  {
    var rows := JoinWordRows(t, t.usersWords, userId);
    var k :| 0 <= k < |rows| && JoinedWordIds(rows)[k] == w.id;
    var j :| 0 <= j < |t.words| && t.words[j] == w;
    var j' :| 0 <= j' < |t.words| && t.words[j'] == rows[k].0;
    assert WordIds(t.words)[j] == WordIds(t.words)[j'];
    var i :| 0 <= i < |t.usersWords| && t.usersWords[i] == rows[k].1;
    assert t.usersWords[i].wordId == t.words[j].id;
  }

  /**
   * `get_unique_user_words` as written: the loop `for _, word in query_result` binds the
   * `users_words` row, so its `id` (the row's id, not the word's) is used as a word id.
   */
  function GetUniqueUserWordsAsWritten(t: Tables, userId: int): (r: Option<seq<string>>)
    ensures r.Some? ==> Distinct(r.value) && |r.value| > 0
    ensures r.Some? ==> forall x :: x in r.value ==>
      exists w, p :: w in t.words && p in t.usersWords && p.userId == userId && p.isAdded && w.id == p.id && w.enWord == x
  {
    var rows := JoinWordRows(t, t.usersWords, userId);
    if |rows| == 0 then None
    else
      var ens := DistinctEnWords(t, JoinedRowIds(rows));
      assert forall x :: x in ens ==>
        exists w, p :: w in t.words && p in t.usersWords && p.userId == userId && p.isAdded && w.id == p.id && w.enWord == x by {
        forall x | x in ens
          ensures exists w, p :: w in t.words && p in t.usersWords && p.userId == userId && p.isAdded && w.id == p.id && w.enWord == x
        {
          var w :| w in t.words && w.id in JoinedRowIds(rows) && w.enWord == x;
          var k :| 0 <= k < |rows| && JoinedRowIds(rows)[k] == w.id;
          assert rows[k].1 in t.usersWords;
        }
      }
      if |ens| == 0 then None else Some(ens)
  }

  /**
   * `get_unique_user_words` as intended: the distinct `en_word`s of the user's active words;
   * `None` when there are none.
   */
  function GetUniqueUserWords(t: Tables, userId: int): (r: Option<seq<string>>)
    ensures r.Some? ==> Distinct(r.value) && |r.value| > 0
    ensures Distinct(WordIds(t.words)) ==> forall x :: (r.Some? && x in r.value) <==> UserHasEnWord(t, userId, x)
  {
    var rows := JoinWordRows(t, t.usersWords, userId);
    var ids := JoinedWordIds(rows);
    var ens := DistinctEnWords(t, ids);
    assert Distinct(WordIds(t.words)) ==> forall x :: x in ens <==> UserHasEnWord(t, userId, x) by {
      if Distinct(WordIds(t.words)) {
        forall x ensures x in ens <==> UserHasEnWord(t, userId, x) {
          if UserHasEnWord(t, userId, x) { UserEnWordsFromJoin(t, userId, x); }
          if x in ens {
            var w :| w in t.words && w.id in ids && w.enWord == x;
            JoinToUserEnWords(t, userId, w);
          }
        }
      }
    }
    if |rows| == 0 then None
    else if |ens| == 0 then None else Some(ens)
  }

  /** The database on which the two versions disagree. */
  function RowIdExample(): Tables {
    Tables(
      [Pos(1, "noun")],
      [Word(1, "dog", None, None, 1, "собака", "", "", false), Word(5, "cat", None, None, 1, "кот", "", "", false)],
      [User(7, "a", "b", "c")],
      [UserWord(1, 7, 5, true, false, None, None)])
  }

  lemma RowIdExampleValid()
    ensures Invariant(RowIdExample())
  {
    var t := RowIdExample();
    assert PosIds(t.pos) == [1] && WordIds(t.words) == [1, 5] && UserIds(t.users) == [7] && PairIds(t.usersWords) == [1];
  }

  lemma RowIdExampleJoin()
    ensures JoinWordRows(RowIdExample(), RowIdExample().usersWords, 7) == [(RowIdExample().words[1], RowIdExample().usersWords[0])]
  {
    var t := RowIdExample();
    assert t.usersWords[..0] == [];
    assert FirstIndex(t.words, (w: Word) => w.id == 5) == Some(1);
  }

  /**
   * On a valid database, user 7's only row has id 1 and links word 5, "cat", while word 1
   * is "dog": as written the answer lists "dog" and not "cat", as intended "cat" and not "dog".
   */
  lemma UniqueUserWordsUsesRowIds()
    ensures Invariant(RowIdExample())
    ensures var r := GetUniqueUserWordsAsWritten(RowIdExample(), 7); r.Some? && "dog" in r.value && "cat" !in r.value
    ensures var r := GetUniqueUserWords(RowIdExample(), 7); r.Some? && "cat" in r.value && "dog" !in r.value
  {
    var t := RowIdExample();
    RowIdExampleValid();
    RowIdExampleJoin();
    var rows := JoinWordRows(t, t.usersWords, 7);
    assert JoinedRowIds(rows) == [1] && JoinedWordIds(rows) == [5];
    RowIdExampleNames();
  }

  /** In the example, word id 1 names "dog" only and word id 5 "cat" only. */
  lemma RowIdExampleNames()
    ensures forall y :: y in DistinctEnWords(RowIdExample(), [1]) <==> y == "dog"
    ensures forall y :: y in DistinctEnWords(RowIdExample(), [5]) <==> y == "cat"
  {
    var t := RowIdExample();
    assert t.words[0] in t.words && t.words[1] in t.words;
  }

  // ---------------------------------------------------------------- properties across operations

  /** After `remove_user_word`, the user has no active word with that `en_word`: neither query returns it. */
  lemma RemoveUserWordHides(t: Tables, userId: int, enWord: string, now: Timestamp, x: string)
    requires Invariant(t) && (enWord == "" || x == enWord)
    ensures var r := RemoveUserWord(t, userId, enWord, now);
      && !UserHasEnWord(r, userId, x)
      && (forall k :: 0 <= k < |GetUserWords(r, userId, None)| ==> GetUserWords(r, userId, None)[k].enWord != x)
      && (GetUniqueUserWords(r, userId).Some? ==> x !in GetUniqueUserWords(r, userId).value)
  {
    var r := RemoveUserWord(t, userId, enWord, now);
    RemoveUserWordClears(t, userId, enWord, now, x);
    NotHeldNotListed(r, userId, x);
  }

  /** The removal leaves no active row of the user whose word is named `x`. */
  lemma RemoveUserWordClears(t: Tables, userId: int, enWord: string, now: Timestamp, x: string)
    requires Invariant(t) && (enWord == "" || x == enWord)
    ensures !UserHasEnWord(RemoveUserWord(t, userId, enWord, now), userId, x)
  {
    var r := RemoveUserWord(t, userId, enWord, now);
    forall i, j | 0 <= i < |r.usersWords| && 0 <= j < |r.words| && r.usersWords[i].userId == userId && r.words[j].id == r.usersWords[i].wordId
      ensures !(r.usersWords[i].isAdded && r.words[j].enWord == x)
    {
      if r.words[j].enWord == x {
        assert r.words[j] in t.words;
        assert !ActiveLink(r.usersWords, userId, r.words[j].id);
      }
    }
  }

  /** A word the user does not hold appears in no record of `get_user_words`. */
  lemma NotHeldNotListed(t: Tables, userId: int, x: string)
    requires !UserHasEnWord(t, userId, x)
    ensures forall k :: 0 <= k < |GetUserWords(t, userId, None)| ==> GetUserWords(t, userId, None)[k].enWord != x
  {
    var rows := JoinRows(t, t.usersWords, userId, None);
    forall k | 0 <= k < |rows| ensures rows[k].0.enWord != x {
      var i :| 0 <= i < |t.usersWords| && t.usersWords[i] == rows[k].2;
      var j :| 0 <= j < |t.words| && t.words[j] == rows[k].0;
    }
  }

  /** Turning some of the user's active rows inactive, and changing nothing else, lowers the count unless nothing changed. */
  lemma {:induction false} CountActiveDrop(a: seq<UserWord>, b: seq<UserWord>, userId: int)
    requires |a| == |b|
    requires forall i :: 0 <= i < |a| ==>
      b[i] == a[i] || (a[i].userId == userId && a[i].isAdded && b[i].userId == userId && !b[i].isAdded)
    ensures CountActive(b, userId) <= CountActive(a, userId)
    ensures CountActive(b, userId) == CountActive(a, userId) <==> a == b
    decreases |a|
  {
    if |a| > 0 {
      var n := |a| - 1;
      CountActiveDrop(a[..n], b[..n], userId);
      assert a == a[..n] + [a[n]] && b == b[..n] + [b[n]];
    }
  }

  /**
   * `remove_user_word` lowers the number of the user's active words exactly when the user had
   * that word active: the test the bot's delete reply rests on.
   */
  lemma RemoveUserWordCount(t: Tables, userId: int, enWord: string, now: Timestamp)
    requires Invariant(t) && enWord != ""
    ensures var r := RemoveUserWord(t, userId, enWord, now);
      && |GetUserWords(r, userId, None)| <= |GetUserWords(t, userId, None)|
      && (|GetUserWords(r, userId, None)| < |GetUserWords(t, userId, None)| <==> UserHasEnWord(t, userId, enWord))
  {
    var r := RemoveUserWord(t, userId, enWord, now);
    CountActiveDrop(t.usersWords, r.usersWords, userId);
    RemoveUserWordChanges(t, userId, enWord, now);
  }

  /** `remove_user_word` changes some row exactly when the user had the word active. */
  lemma RemoveUserWordChanges(t: Tables, userId: int, enWord: string, now: Timestamp)
    requires Invariant(t) && enWord != ""
    ensures RemoveUserWord(t, userId, enWord, now).usersWords != t.usersWords <==> UserHasEnWord(t, userId, enWord)
  {
    var r := RemoveUserWord(t, userId, enWord, now);
    if UserHasEnWord(t, userId, enWord) {
      var i, j :| 0 <= i < |t.usersWords| && 0 <= j < |t.words| && t.usersWords[i].userId == userId && t.usersWords[i].isAdded
        && t.words[j].id == t.usersWords[i].wordId && t.words[j].enWord == enWord;
      assert t.words[j] in t.words;
      assert !ActiveLink(r.usersWords, userId, t.words[j].id);
      assert r.usersWords[i] != t.usersWords[i];
    }
    if r.usersWords != t.usersWords {
      assert |r.usersWords| == |t.usersWords|;
      var i :| 0 <= i < |t.usersWords| && r.usersWords[i] != t.usersWords[i];
      var w :| w in t.words && w.enWord == enWord && w.id == t.usersWords[i].wordId;
      var j :| 0 <= j < |t.words| && t.words[j] == w;
      assert UserHasEnWord(t, userId, enWord);
    }
  }

  /** When every word of `ids` already has a row of the user, the loop of `add_user_word` queues nothing. */
  lemma {:induction false} LinkWordsQueuesNothing(pairs: seq<UserWord>, userId: int, ids: seq<int>, start: int, now: Timestamp)
    requires forall k :: 0 <= k < |ids| ==> HasLink(pairs, userId, ids[k])
    ensures LinkWords(pairs, userId, ids, start, now).1 == []
    decreases |ids|
  {
    if |ids| > 0 {
      var k := |ids| - 1;
      assert forall j :: 0 <= j < k ==> ids[..k][j] == ids[j];
      LinkWordsQueuesNothing(pairs, userId, ids[..k], start, now);
      var prev := LinkWords(pairs, userId, ids[..k], start, now);
      KeysPreservedHasLink(pairs, prev.0, userId, ids[k]);
    }
  }

  /**
   * `add_user_word` for an `en_word` the developer's list has gives the user that word again;
   * when the user already had a row for each of those words (as after `remove_user_word`),
   * no row is added: the existing rows are reactivated and keep their ids.
   */
  lemma AddUserWordRestores(t: Tables, userId: int, d: WordDraft, now: Timestamp)
    requires Invariant(t) && userId in UserIds(t.users) && d.enWord != ""
    requires exists w :: w in t.words && !w.isAddedByUsers && w.enWord == d.enWord
    ensures var r := AddUserWord(t, userId, d, now);
      && r.1 == Done && r.0.words == t.words
      && UserHasEnWord(r.0, userId, d.enWord)
      && ((forall w :: w in t.words && !w.isAddedByUsers && w.enWord == d.enWord ==> HasLink(t.usersWords, userId, w.id))
          ==> KeysPreserved(t.usersWords, r.0.usersWords))
  {
    var r := AddUserWord(t, userId, d, now);
    var w := CuratedLinked(t, userId, d);
    assert ActiveLink(r.0.usersWords, userId, w.id);
    var i :| 0 <= i < |r.0.usersWords| && r.0.usersWords[i].userId == userId && r.0.usersWords[i].wordId == w.id && r.0.usersWords[i].isAdded;
    var j :| 0 <= j < |r.0.words| && r.0.words[j] == w;
    if forall v :: v in t.words && !v.isAddedByUsers && v.enWord == d.enWord ==> HasLink(t.usersWords, userId, v.id) {
      CuratedRelinkQueuesNothing(t, userId, d, now);
    }
  }

  /**
   * For a known user and a word the developer's list has, `add_user_word` links the curated
   * words with that `en_word`, and the result is `Done`; `w` is one of them.
   */
  lemma CuratedLinked(t: Tables, userId: int, d: WordDraft) returns (w: Word)
    requires userId in UserIds(t.users)
    requires exists w :: w in t.words && !w.isAddedByUsers && w.enWord == d.enWord
    ensures w in t.words && !w.isAddedByUsers && w.enWord == d.enWord
    ensures |GetUsers(t, userId)| > 0
    ensures WordsToLink(t, d) == Some((t, GetWords(t, d.enWord, false)))
    ensures LinkTarget(t, d, w)
  {
    w :| w in t.words && !w.isAddedByUsers && w.enWord == d.enWord;
    var curated := GetWords(t, d.enWord, false);
    assert w in curated;
    var i :| 0 <= i < |t.users| && t.users[i].userId == userId;
    assert t.users[i] in GetUsers(t, userId);
  }

  /** When the user has a row for every curated word of that name, adding it inserts nothing. */
  lemma CuratedRelinkQueuesNothing(t: Tables, userId: int, d: WordDraft, now: Timestamp)
    requires Invariant(t) && userId in UserIds(t.users) && d.enWord != ""
    requires exists w :: w in t.words && !w.isAddedByUsers && w.enWord == d.enWord
    requires forall v :: v in t.words && !v.isAddedByUsers && v.enWord == d.enWord ==> HasLink(t.usersWords, userId, v.id)
    ensures KeysPreserved(t.usersWords, AddUserWord(t, userId, d, now).0.usersWords)
  {
    var _ := CuratedLinked(t, userId, d);
    var curated := GetWords(t, d.enWord, false);
    var ids := WordIds(curated);
    forall k | 0 <= k < |ids| ensures HasLink(t.usersWords, userId, ids[k]) {
      assert curated[k] in curated;
    }
    LinkWordsQueuesNothing(t.usersWords, userId, ids, NextId(PairIds(t.usersWords)), now);
  }


  /** The upsert of `add_word` keeps each old row's id and `en_word`. */
  lemma AddWordKeepsWord(t: Tables, d: WordDraft, byUser: bool, j: nat)
    requires j < |t.words|
    ensures var r := AddWord(t, d, byUser).0;
      j < |r.words| && r.words[j].id == t.words[j].id && r.words[j].enWord == t.words[j].enWord
  {
    var r := AddWord(t, d, byUser);
    if r.1 == Done {
      var idPos := PosIdOf(t.pos, d.posName).value;
      if HasWordAt(t.words, d.enWord, idPos) {
        var i := WordIndex(t.words, d.enWord, idPos).value;
        if j == i {
          assert r.0.words[j].enWord == d.enWord;
        }
      } else {
        assert r.0.words[j] == r.0.words[..|t.words|][j];
      }
    }
  }

  /** `add_user_word` takes no word away from the user: an active row stays active, and its word keeps its `en_word`. */
  lemma AddUserWordKeepsHeld(t: Tables, userId: int, d: WordDraft, now: Timestamp, x: string)
    requires UserHasEnWord(t, userId, x)
    ensures UserHasEnWord(AddUserWord(t, userId, d, now).0, userId, x)
  {
    var r := AddUserWord(t, userId, d, now);
    if r.1 == Done {
      var i, j :| 0 <= i < |t.usersWords| && 0 <= j < |t.words| && t.usersWords[i].userId == userId && t.usersWords[i].isAdded
        && t.words[j].id == t.usersWords[i].wordId && t.words[j].enWord == x;
      assert r.0.usersWords[i].userId == userId && r.0.usersWords[i].isAdded && r.0.usersWords[i].wordId == t.usersWords[i].wordId;
      if |GetWords(t, d.enWord, false)| == 0 {
        AddWordKeepsWord(t, d, true, j);
      }
      assert r.0.words[j].id == t.words[j].id && r.0.words[j].enWord == x;
    }
  }

  /**
   * A known user who adds a word the developer's list has, or one whose part of speech the
   * table holds, has that word afterwards whenever `add_user_word` did not raise.
   */
  lemma AddUserWordHolds(t: Tables, userId: int, d: WordDraft, now: Timestamp)
    requires Invariant(t) && userId in UserIds(t.users) && d.enWord != ""
    requires |GetWords(t, d.enWord, false)| > 0 || HasPosNamed(t.pos, d.posName)
    ensures AddUserWord(t, userId, d, now).1 != Refused
      ==> AddUserWord(t, userId, d, now).1 == Done && UserHasEnWord(AddUserWord(t, userId, d, now).0, userId, d.enWord)
  {
    if |GetWords(t, d.enWord, false)| > 0 {
      var w := GetWords(t, d.enWord, false)[0];
      assert w in GetWords(t, d.enWord, false);
      AddUserWordRestores(t, userId, d, now);
    } else {
      AddUserWordCreates(t, userId, d, now);
    }
  }

  /** A word the developer's list lacks is created as a user word, and the user has it once the call does not raise. */
  lemma AddUserWordCreates(t: Tables, userId: int, d: WordDraft, now: Timestamp)
    requires Invariant(t) && userId in UserIds(t.users) && d.enWord != ""
    requires |GetWords(t, d.enWord, false)| == 0 && HasPosNamed(t.pos, d.posName)
    ensures AddUserWord(t, userId, d, now).1 != Refused
      ==> AddUserWord(t, userId, d, now).1 == Done && UserHasEnWord(AddUserWord(t, userId, d, now).0, userId, d.enWord)
  {
    var r := AddUserWord(t, userId, d, now);
    var k :| 0 <= k < |t.users| && t.users[k].userId == userId;
    assert t.users[k] in GetUsers(t, userId);
    if r.1 == Done {
      var a := AddWord(t, d, true);
      assert a.1 == Done;
      assert r.0.words == a.0.words;
      var m :| 0 <= m < |a.0.words| && Stores(a.0.words[m], d, PosIdOf(t.pos, d.posName).value, true);
      var w := a.0.words[m];
      assert w in r.0.words;
      assert LinkTarget(t, d, w) && w.enWord == d.enWord;
      assert ActiveLink(r.0.usersWords, userId, w.id);
      HeldFromLink(r.0, userId, w);
    }
  }

  /** An active row for a word of the table gives the user that word's `en_word`. */
  lemma HeldFromLink(t: Tables, userId: int, w: Word)
    requires w in t.words && ActiveLink(t.usersWords, userId, w.id)
    ensures UserHasEnWord(t, userId, w.enWord)
  {
    var i :| 0 <= i < |t.usersWords| && t.usersWords[i].userId == userId && t.usersWords[i].wordId == w.id && t.usersWords[i].isAdded;
    var j :| 0 <= j < |t.words| && t.words[j] == w;
  }

  /** One call of `add_user_word`, as a loop over records sees it: nothing held is lost, and the word is gained. */
  lemma AddUserWordStep(t: Tables, userId: int, d: WordDraft, now: Timestamp)
    ensures var r := AddUserWord(t, userId, d, now);
      && (forall x :: UserHasEnWord(t, userId, x) ==> UserHasEnWord(r.0, userId, x))
      && (Invariant(t) && r.1 != Refused && userId in UserIds(t.users) && d.enWord != "" && HasPosNamed(t.pos, d.posName)
          ==> UserHasEnWord(r.0, userId, d.enWord))
  {
    forall x | UserHasEnWord(t, userId, x) ensures UserHasEnWord(AddUserWord(t, userId, d, now).0, userId, x) {
      AddUserWordKeepsHeld(t, userId, d, now, x);
    }
    if Invariant(t) && userId in UserIds(t.users) && d.enWord != "" && HasPosNamed(t.pos, d.posName) {
      AddUserWordHolds(t, userId, d, now);
    }
  }

  /** Removing a word and adding it back: hidden in between, active again after, with the same rows. */
  lemma RemoveThenAddUserWord(t: Tables, userId: int, d: WordDraft, now1: Timestamp, now2: Timestamp)
    requires Invariant(t) && userId in UserIds(t.users) && d.enWord != ""
    requires exists w :: w in t.words && !w.isAddedByUsers && w.enWord == d.enWord
    requires forall w :: w in t.words && !w.isAddedByUsers && w.enWord == d.enWord ==> HasLink(t.usersWords, userId, w.id)
    ensures var removed := RemoveUserWord(t, userId, d.enWord, now1);
      var r := AddUserWord(removed, userId, d, now2);
      && !UserHasEnWord(removed, userId, d.enWord)
      && r.1 == Done && UserHasEnWord(r.0, userId, d.enWord)
      && KeysPreserved(t.usersWords, r.0.usersWords)
  {
    var removed := RemoveUserWord(t, userId, d.enWord, now1);
    RemoveUserWordHides(t, userId, d.enWord, now1, d.enWord);
    RemoveKeepsLinks(t, userId, d.enWord, now1);
    AddUserWordRestores(removed, userId, d, now2);
  }

  /** `remove_user_word` keeps every row, so every (user, word) link is still there. */
  lemma RemoveKeepsLinks(t: Tables, userId: int, enWord: string, now: Timestamp)
    ensures var removed := RemoveUserWord(t, userId, enWord, now);
      && removed.words == t.words && removed.users == t.users
      && KeysPreserved(t.usersWords, removed.usersWords)
      && (Invariant(t) ==> Invariant(removed))
      && forall w :: w in t.words && HasLink(t.usersWords, userId, w.id) ==> HasLink(removed.usersWords, userId, w.id)
  {
    var removed := RemoveUserWord(t, userId, enWord, now);
    forall w | w in t.words && HasLink(t.usersWords, userId, w.id) ensures HasLink(removed.usersWords, userId, w.id) {
      KeysPreservedHasLink(t.usersWords, removed.usersWords, userId, w.id);
    }
  }

  /** After seeding, the user has an active row for every word of the developer's list. */
  lemma SeedLinksCurated(t: Tables, userId: int, now: Timestamp)
    requires PrepareUserWordPairs(t, userId, now).1 == Inserted
    ensures var r := PrepareUserWordPairs(t, userId, now).0;
      forall w :: w in t.words && !w.isAddedByUsers ==> ActiveLink(r.usersWords, SeedUser(t, userId), w.id)
  {
    PrepareInsertedShape(t, userId, now);
    var pairs := PrepareUserWordPairs(t, userId, now).0.usersWords;
    var u := SeedUser(t, userId);
    var curated := GetWords(t, "", false);
    var rows := SeedRows(NextId(PairIds(t.usersWords)), u, WordIds(curated), now);
    assert pairs == t.usersWords + rows;
    forall w | w in t.words && !w.isAddedByUsers ensures ActiveLink(pairs, u, w.id) {
      assert w in curated;
      var k :| 0 <= k < |curated| && curated[k] == w;
      var i := |t.usersWords| + k;
      assert pairs[i] == rows[k] && WordIds(curated)[k] == w.id;
      assert pairs[i].userId == u && pairs[i].wordId == w.id && pairs[i].isAdded;
    }
  }

}
