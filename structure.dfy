/**
 * The relational schema: the four tables `pos`, `words`, `users` and `users_words`,
 * their column types, and the NOT NULL, UNIQUE, length, primary-key and foreign-key
 * constraints the database enforces. NOT NULL columns have non-`Option` types;
 * nullable ones are `Option`s.
 */
module Structure {
  import opened Common

  // Column lengths of the String(length=...) columns.
  const POS_NAME_LENGTH := 85
  const WORD_FIELD_LENGTH := 350
  const EXAMPLE_LENGTH := 1500
  const USER_FIELD_LENGTH := 85

  datatype Pos = Pos(id: int, posName: string)

  datatype Word = Word(
    id: int,
    enWord: string,
    enTrans: Option<string>,
    mp3Url: Option<string>,
    idPos: int,
    ruWord: string,
    enExample: string,
    ruExample: string,
    isAddedByUsers: bool)

  datatype User = User(userId: int, firstName: string, lastName: string, username: string)

  datatype UserWord = UserWord(
    id: int,
    userId: int,
    wordId: int,
    isAdded: bool,
    isUserWord: bool,
    dateAdded: Option<Timestamp>,
    dateDeleted: Option<Timestamp>)

  /** A snapshot of the whole database, each table in its row order. */
  datatype Tables = Tables(pos: seq<Pos>, words: seq<Word>, users: seq<User>, usersWords: seq<UserWord>)

  predicate FitsOpt(s: Option<string>, n: nat) {
    s.None? || |s.value| <= n
  }

  predicate PosFits(p: Pos) {
    |p.posName| <= POS_NAME_LENGTH
  }

  predicate WordFits(w: Word) {
    && |w.enWord| <= WORD_FIELD_LENGTH
    && FitsOpt(w.enTrans, WORD_FIELD_LENGTH)
    && FitsOpt(w.mp3Url, WORD_FIELD_LENGTH)
    && |w.ruWord| <= WORD_FIELD_LENGTH
    && |w.enExample| <= EXAMPLE_LENGTH
    && |w.ruExample| <= EXAMPLE_LENGTH
  }

  predicate UserFits(u: User) {
    && |u.firstName| <= USER_FIELD_LENGTH
    && |u.lastName| <= USER_FIELD_LENGTH
    && |u.username| <= USER_FIELD_LENGTH
  }

  function PosIds(pos: seq<Pos>): (r: seq<int>)
    ensures |r| == |pos| && forall i :: 0 <= i < |pos| ==> r[i] == pos[i].id
  {
    seq(|pos|, i requires 0 <= i < |pos| => pos[i].id)
  }

  function WordIds(words: seq<Word>): (r: seq<int>)
    ensures |r| == |words| && forall i :: 0 <= i < |words| ==> r[i] == words[i].id
  {
    seq(|words|, i requires 0 <= i < |words| => words[i].id)
  }

  function UserIds(users: seq<User>): (r: seq<int>)
    ensures |r| == |users| && forall i :: 0 <= i < |users| ==> r[i] == users[i].userId
  {
    seq(|users|, i requires 0 <= i < |users| => users[i].userId)
  }

  function PairIds(pairs: seq<UserWord>): (r: seq<int>)
    ensures |r| == |pairs| && forall i :: 0 <= i < |pairs| ==> r[i] == pairs[i].id
  {
    seq(|pairs|, i requires 0 <= i < |pairs| => pairs[i].id)
  }

  lemma PairIdsAppend(a: seq<UserWord>, b: seq<UserWord>)
    ensures PairIds(a + b) == PairIds(a) + PairIds(b)
  {
    assert |PairIds(a + b)| == |PairIds(a) + PairIds(b)|;
    forall i | 0 <= i < |a + b| ensures PairIds(a + b)[i] == (PairIds(a) + PairIds(b))[i] {
      if i < |a| { assert (a + b)[i] == a[i]; } else { assert (a + b)[i] == b[i - |a|]; }
    }
  }

  /** `pos`: primary key `id`, `pos_name` NOT NULL UNIQUE String(85). */
  predicate PosTableValid(pos: seq<Pos>) {
    && Distinct(PosIds(pos))
    && (forall i, j :: 0 <= i < j < |pos| ==> pos[i].posName != pos[j].posName)
    && (forall i :: 0 <= i < |pos| ==> PosFits(pos[i]))
  }

  /** `words`: primary key `id`; `id_pos` NOT NULL references `pos.id`. */
  predicate WordsTableValid(words: seq<Word>, pos: seq<Pos>) {
    && Distinct(WordIds(words))
    && (forall i :: 0 <= i < |words| ==> WordFits(words[i]) && words[i].idPos in PosIds(pos))
  }

  /** `users`: primary key `user_id`; `username` UNIQUE. */
  predicate UsersTableValid(users: seq<User>) {
    && Distinct(UserIds(users))
    && (forall i, j :: 0 <= i < j < |users| ==> users[i].username != users[j].username)
    && (forall i :: 0 <= i < |users| ==> UserFits(users[i]))
  }

  /**
   * `users_words`: primary key `id` only; `user_id` references `users.user_id`
   * (ON DELETE CASCADE) and `word_id` references `words.id`.
   */
  predicate UsersWordsTableValid(pairs: seq<UserWord>, users: seq<User>, words: seq<Word>) {
    && Distinct(PairIds(pairs))
    && (forall i :: 0 <= i < |pairs| ==> pairs[i].userId in UserIds(users) && pairs[i].wordId in WordIds(words))
  }

  /** Every constraint the schema declares. */
  predicate SchemaValid(t: Tables) {
    && PosTableValid(t.pos)
    && WordsTableValid(t.words, t.pos)
    && UsersTableValid(t.users)
    && UsersWordsTableValid(t.usersWords, t.users, t.words)
  }

  /** No two association rows link the same user to the same word. */
  predicate PairsUnique(pairs: seq<UserWord>) {
    forall i, j :: 0 <= i < j < |pairs| ==>
      !(pairs[i].userId == pairs[j].userId && pairs[i].wordId == pairs[j].wordId)
  }

  /**
   * The schema does not forbid two `users_words` rows for the same (user, word):
   * a valid database holding such a pair of rows.
   */
  lemma DuplicatePairsAllowed()
    ensures exists t :: SchemaValid(t) && !PairsUnique(t.usersWords)
  {
    var t := Tables(
      [Pos(1, "noun")],
      [Word(1, "cat", None, None, 1, "кот", "", "", false)],
      [User(7, "a", "b", "c")],
      [UserWord(1, 7, 1, true, false, None, None), UserWord(2, 7, 1, false, false, None, None)]);
    assert PairIds(t.usersWords) == [1, 2];
    assert UserIds(t.users) == [7];
    assert WordIds(t.words) == [1];
    assert PosIds(t.pos) == [1];
    assert SchemaValid(t);
    var p0, p1 := t.usersWords[0], t.usersWords[1];
    assert p0.userId == p1.userId && p0.wordId == p1.wordId;
    assert !PairsUnique(t.usersWords);
  }

  /** The rows left after `DELETE FROM users WHERE user_id = u`, with the ON DELETE CASCADE of `users_words`. */
  function DeleteUserCascade(t: Tables, i: nat): (r: Tables)
    requires i < |t.users|
    ensures r.pos == t.pos && r.words == t.words
    ensures r.users == RemoveAt(t.users, i)
    ensures forall p :: p in r.usersWords <==> p in t.usersWords && p.userId != t.users[i].userId
  {
    var u := t.users[i].userId;
    t.(users := RemoveAt(t.users, i), usersWords := Filter(t.usersWords, (p: UserWord) => p.userId != u))
  }

  lemma {:induction false} FilterKeepsDistinctIds(pairs: seq<UserWord>, p: UserWord -> bool)
    requires Distinct(PairIds(pairs))
    ensures Distinct(PairIds(Filter(pairs, p)))
    decreases |pairs|
  {
    if |pairs| > 0 {
      FilterKeepsDistinctIds(pairs[1..], p);
      var rest := Filter(pairs[1..], p);
      if p(pairs[0]) {
        var r := [pairs[0]] + rest;
        assert Filter(pairs, p) == r;
        forall i, j | 0 <= i < j < |r| ensures r[i].id != r[j].id {
          if i == 0 {
            assert r[j] in pairs[1..];
          }
        }
      }
    }
  }

  /** The cascade keeps the database valid: no association row is left pointing at the deleted user. */
  lemma DeleteUserCascadeValid(t: Tables, i: nat)
    requires SchemaValid(t) && i < |t.users|
    ensures SchemaValid(DeleteUserCascade(t, i))
  {
    var r := DeleteUserCascade(t, i);
    var u := t.users[i].userId;
    FilterKeepsDistinctIds(t.usersWords, (p: UserWord) => p.userId != u);
    forall k | 0 <= k < |r.usersWords|
      ensures r.usersWords[k].userId in UserIds(r.users)
    {
      var p := r.usersWords[k];
      assert p in t.usersWords;
      var j :| 0 <= j < |t.users| && t.users[j].userId == p.userId;
      assert j != i;
      if j < i { assert r.users[j] == t.users[j]; } else { assert r.users[j - 1] == t.users[j]; }
    }
    forall a, b | 0 <= a < b < |r.users| ensures r.users[a].userId != r.users[b].userId && r.users[a].username != r.users[b].username {
      var a' := if a < i then a else a + 1;
      var b' := if b < i then b else b + 1;
      assert r.users[a] == t.users[a'] && r.users[b] == t.users[b'];
    }
  }

  /** The live database: the four tables, updated in place by the repository. */
  class Database {
    var pos: seq<Pos>
    var words: seq<Word>
    var users: seq<User>
    var usersWords: seq<UserWord>

    function State(): Tables
      reads this
    {
      Tables(pos, words, users, usersWords)
    }

    ghost predicate Valid()
      reads this
    {
      SchemaValid(State())
    }

    /** A freshly created database: the four tables exist and are empty. */
    constructor ()
      ensures Valid() && State() == Tables([], [], [], [])
    {
      pos, words, users, usersWords := [], [], [], [];
    }
  }
}
