/**
 * `DBRepository`: the operations on the live database. Each method changes the tables
 * in place the way the repository does (query, then add, delete or assign fields of the
 * fetched row) and is proved to leave exactly the state the matching function of
 * `RepositoryModel` describes, so every property proved there holds of the method.
 */
module Repository {
  import opened Common
  import opened Structure
  import opened RepositoryModel

  /** The ids of the pos rows named `name`, gathered by a scan of the pos list. */
  method PosIdsNamed(posList: seq<Pos>, name: string) returns (ids: seq<int>)
    ensures ids == IdsNamed(posList, name)
  {
    ids := [];
    var k := 0;
    while k < |posList|
      invariant 0 <= k <= |posList|
      invariant ids == IdsNamed(posList[..k], name)
    {
      assert posList[..k + 1][..k] == posList[..k];
      if posList[k].posName == name {
        ids := ids + [posList[k].id];
      }
      k := k + 1;
    }
    assert posList[..k] == posList;
  }

  /** The `id` of each word, in order. */
  method IdsOf(words: seq<Word>) returns (ids: seq<int>)
    ensures ids == WordIds(words)
  {
    ids := [];
    var k := 0;
    while k < |words|
      invariant 0 <= k <= |words|
      invariant |ids| == k && forall j :: 0 <= j < k ==> ids[j] == words[j].id
    {
      ids := ids + [words[k].id];
      k := k + 1;
    }
  }

  /** The loop of `remove_user_word`: the active row of the user for each word id is switched off. */
  method DeactivateLoop(p: seq<UserWord>, userId: int, wordIds: seq<int>, now: Timestamp) returns (pairs: seq<UserWord>)
    ensures pairs == DeactivateAll(p, userId, wordIds, now)
  {
    pairs := p;
    var k := 0;
    while k < |wordIds|
      invariant 0 <= k <= |wordIds|
      invariant pairs == DeactivateAll(p, userId, wordIds[..k], now)
    {
      DeactivateAllNext(p, userId, wordIds, k, now);
      var found := ActiveLinkIndex(pairs, userId, wordIds[k]);
      if found.Some? {
        var i := found.value;
        pairs := pairs[i := Deactivated(pairs[i], now)];
      }
      k := k + 1;
    }
    assert wordIds[..k] == wordIds;
  }

  /** The loop of `delete_user_word_pair`: the row of the user for each word id is deleted. */
  method UnlinkLoop(p: seq<UserWord>, userId: int, wordIds: seq<int>) returns (pairs: seq<UserWord>)
    ensures pairs == UnlinkAll(p, userId, wordIds)
  {
    pairs := p;
    var k := 0;
    while k < |wordIds|
      invariant 0 <= k <= |wordIds|
      invariant pairs == UnlinkAll(p, userId, wordIds[..k])
    {
      UnlinkAllNext(p, userId, wordIds, k);
      var wordId := wordIds[k];
      var found := LinkIndex(pairs, userId, wordId);
      ghost var next := UnlinkStep(pairs, userId, wordId);
      if found.Some? {
        pairs := RemoveAt(pairs, found.value);
      }
      assert pairs == next;
      k := k + 1;
    }
    assert wordIds[..k] == wordIds;
  }

  class DBRepository {
    const db: Database

    /** The database satisfies every schema constraint and links a user to a word once at most. */
    ghost predicate Valid()
      reads db
    {
      Invariant(db.State())
    }

    constructor (db: Database)
      requires Invariant(db.State())
      ensures this.db == db && Valid()
    {
      this.db := db;
    }

    // -------------------------------------------------------------- pos

    method AddPos(name: string) returns (outcome: Outcome)
      requires Valid()
      modifies db
      ensures (db.State(), outcome) == RepositoryModel.AddPos(old(db.State()), name)
      ensures Valid()
    {
      var existing := FirstIndex(db.pos, (p: Pos) => p.posName == name);
      if existing.Some? {
        return Skipped;
      }
      if |name| > POS_NAME_LENGTH {
        return Refused;
      }
      db.pos := db.pos + [Pos(NextId(PosIds(db.pos)), name)];
      outcome := Done;
    }

    method UpdatePos(oldName: string, newName: string) returns (outcome: Outcome)
      requires Valid()
      modifies db
      ensures (db.State(), outcome) == RepositoryModel.UpdatePos(old(db.State()), oldName, newName)
      ensures Valid()
    {
      var existing := FirstIndex(db.pos, (p: Pos) => p.posName == oldName);
      var clash := FirstIndex(db.pos, (p: Pos) => p.posName == newName);
      if existing.None? || clash.Some? {
        return Skipped;
      }
      if |newName| > POS_NAME_LENGTH {
        return Refused;
      }
      var i := existing.value;
      db.pos := db.pos[i := Pos(db.pos[i].id, newName)];
      outcome := Done;
    }

    method DeletePos(name: string) returns (outcome: Outcome)
      requires Valid()
      modifies db
      ensures (db.State(), outcome) == RepositoryModel.DeletePos(old(db.State()), name)
      ensures Valid()
    {
      var existing := FirstIndex(db.pos, (p: Pos) => p.posName == name);
      if existing.None? {
        return Skipped;
      }
      var i := existing.value;
      var id := db.pos[i].id;
      // words.id_pos has no ON DELETE rule: a referenced row cannot go
      var referenced := FirstIndex(db.words, (w: Word) => w.idPos == id);
      if referenced.Some? {
        return Refused;
      }
      db.pos := RemoveAt(db.pos, i);
      outcome := Done;
    }

    /** The pos rows, copied one by one. */
    method GetPos() returns (r: seq<Pos>)
      ensures r == RepositoryModel.GetPos(db.State())
    {
      r := [];
      var k := 0;
      while k < |db.pos|
        invariant 0 <= k <= |db.pos|
        invariant r == db.pos[..k]
      {
        r := r + [db.pos[k]];
        k := k + 1;
      }
      assert db.pos[..k] == db.pos;
    }

    // -------------------------------------------------------------- words

    method AddWord(d: WordDraft, byUser: bool) returns (outcome: Outcome)
      requires Valid()
      modifies db
      ensures (db.State(), outcome) == RepositoryModel.AddWord(old(db.State()), d, byUser)
      ensures Valid()
    {
      var posList := GetPos();
      var ids := PosIdsNamed(posList, d.posName);
      if |ids| == 0 {
        return Skipped;
      }
      var idPos := ids[|ids| - 1];
      var existing := WordIndex(db.words, d.enWord, idPos);
      if existing.None? {
        var row := WordRow(NextId(WordIds(db.words)), d, idPos, byUser);
        if row.None? || !WordFits(row.value) {
          return Refused;
        }
        db.words := db.words + [row.value];
      } else {
        var i := existing.value;
        var row := WordRow(db.words[i].id, d, idPos, byUser);
        if row.None? || !WordFits(row.value) {
          return Refused;
        }
        db.words := db.words[i := row.value];
      }
      outcome := Done;
    }

    method DeleteWord(d: WordDraft) returns (outcome: Outcome)
      requires Valid()
      modifies db
      ensures (db.State(), outcome) == RepositoryModel.DeleteWord(old(db.State()), d)
      ensures Valid()
    {
      ghost var r := RepositoryModel.DeleteWord(db.State(), d);
      var posList := GetPos();
      var ids := PosIdsNamed(posList, d.posName);
      if |ids| == 0 {
        return Skipped;
      }
      var idPos := ids[|ids| - 1];
      var existing := WordIndex(db.words, d.enWord, idPos);
      if existing.None? {
        return Skipped;
      }
      var k := existing.value;
      var id := db.words[k].id;
      // users_words.word_id has no ON DELETE rule: a linked word cannot go
      var linked := WordLinked(db.usersWords, id);
      if linked.Some? {
        return Refused;
      }
      assert r == (db.State().(words := RemoveAt(db.words, k)), Done);
      db.words := RemoveAt(db.words, k);
      outcome := Done;
    }

    method GetWords(enWord: string, byUser: bool) returns (r: seq<Word>)
      ensures r == RepositoryModel.GetWords(db.State(), enWord, byUser)
    {
      var words := db.words;
      ghost var listed := (w: Word) => w.isAddedByUsers == byUser && (enWord == "" || w.enWord == enWord);
      r := [];
      var k := 0;
      while k < |words|
        invariant 0 <= k <= |words|
        invariant r == Filter(words[..k], listed)
      {
        assert words[..k + 1] == words[..k] + [words[k]];
        FilterSnoc(words[..k], words[k], listed);
        var w := words[k];
        if w.isAddedByUsers == byUser && (enWord == "" || w.enWord == enWord) {
          r := r + [w];
        }
        k := k + 1;
      }
      assert words[..k] == words;
    }

    // -------------------------------------------------------------- users

    method AddUser(d: UserDraft) returns (outcome: Outcome)
      requires Valid()
      modifies db
      ensures (db.State(), outcome) == RepositoryModel.AddUser(old(db.State()), d)
      ensures Valid()
    {
      var row := UserRow(d);
      if row.None? || !UserFits(row.value) {
        return Refused;
      }
      var u := row.value;
      var existing := FirstIndex(db.users, (x: User) => x.userId == d.userId);
      if existing.None? {
        var clash := FirstIndex(db.users, (x: User) => x.username == u.username);
        if clash.Some? {
          return Refused;
        }
        db.users := db.users + [u];
      } else {
        var clash := FirstIndex(db.users, (x: User) => x.username == u.username && x.userId != d.userId);
        if clash.Some? {
          return Refused;
        }
        db.users := db.users[existing.value := u];
      }
      outcome := Done;
    }

    method DeleteUser(userId: int) returns (outcome: Outcome)
      requires Valid()
      modifies db
      ensures (db.State(), outcome) == RepositoryModel.DeleteUser(old(db.State()), userId)
      ensures Valid()
    {
      var existing := FirstIndex(db.users, (x: User) => x.userId == userId);
      if existing.None? {
        return Skipped;
      }
      var r := DeleteUserCascade(db.State(), existing.value);
      db.users, db.usersWords := r.users, r.usersWords;
      outcome := Done;
    }

    method GetUsers(userId: int) returns (r: seq<User>)
      ensures r == RepositoryModel.GetUsers(db.State(), userId)
    {
      r := [];
      var k := 0;
      if userId == 0 {
        while k < |db.users|
          invariant 0 <= k <= |db.users|
          invariant r == db.users[..k]
        {
          r := r + [db.users[k]];
          k := k + 1;
        }
      } else {
        while k < |db.users|
          invariant 0 <= k <= |db.users|
          invariant r == Filter(db.users[..k], (u: User) => u.userId == userId)
        {
          assert db.users[..k + 1] == db.users[..k] + [db.users[k]];
          FilterSnoc(db.users[..k], db.users[k], (u: User) => u.userId == userId);
          if db.users[k].userId == userId {
            r := r + [db.users[k]];
          }
          k := k + 1;
        }
      }
      assert db.users[..k] == db.users;
    }

    // -------------------------------------------------------------- users_words

    /** The rows of the bulk insert: ids counting up from `start`, all active, none the user's own. */
    method SeedRowsFor(start: int, u: int, wordIds: seq<int>, now: Timestamp) returns (rows: seq<UserWord>)
      ensures rows == SeedRows(start, u, wordIds, now)
    {
      rows := [];
      var k := 0;
      while k < |wordIds|
        invariant 0 <= k <= |wordIds|
        invariant |rows| == k && forall j :: 0 <= j < k ==> rows[j] == UserWord(start + j, u, wordIds[j], true, false, Some(now), None)
      {
        rows := rows + [UserWord(start + k, u, wordIds[k], true, false, Some(now), None)];
        k := k + 1;
      }
    }

    method PrepareUserWordPairs(userId: int, now: Timestamp) returns (result: BulkResult)
      requires Valid()
      modifies db
      ensures (db.State(), result) == RepositoryModel.PrepareUserWordPairs(old(db.State()), userId, now)
      ensures Valid()
    {
      ghost var t := db.State();
      var wordData := GetWords("", false);
      var userData := GetUsers(userId);
      var wordIds := IdsOf(wordData);
      var u := 0;
      if |userData| > 0 {
        u := userData[|userData| - 1].userId;
      }
      assert u == SeedUser(t, userId);
      var existing := FirstIndex(db.usersWords, (p: UserWord) => p.userId == u);
      if existing.Some? || |wordIds| == 0 || u == 0 {
        return NothingToInsert;
      }
      var rows := SeedRowsFor(NextId(PairIds(db.usersWords)), u, wordIds, now);
      if BulkAccepted(db.State(), rows) {
        db.usersWords := db.usersWords + rows;
        result := Inserted;
      } else {
        result := Swallowed;
      }
    }

    /**
     * The loop of `add_user_word`: an inactive row of the user for a word is reactivated in
     * place; a word without a row gets a new row queued, with id `start` plus its loop index.
     */
    method LinkLoop(userId: int, wordIds: seq<int>, start: int, now: Timestamp) returns (rows: seq<UserWord>)
      modifies db
      ensures (db.usersWords, rows) == LinkWords(old(db.usersWords), userId, wordIds, start, now)
      ensures db.pos == old(db.pos) && db.words == old(db.words) && db.users == old(db.users)
    {
      var pairs := db.usersWords;
      rows := [];
      var k := 0;
      while k < |wordIds|
        invariant 0 <= k <= |wordIds|
        invariant (pairs, rows) == LinkWords(db.usersWords, userId, wordIds[..k], start, now)
        modifies {}
      {
        LinkWordsNext(db.usersWords, userId, wordIds, k, start, now);
        var wordId := wordIds[k];
        var found := LinkIndex(pairs, userId, wordId);
        if found.None? {
          rows := rows + [NewLink(start + k, userId, wordId, now)];
        } else if !pairs[found.value].isAdded {
          var i := found.value;
          pairs := pairs[i := Reactivated(pairs[i], now)];
        }
        k := k + 1;
      }
      assert wordIds[..k] == wordIds;
      db.usersWords := pairs;
    }

    method AddUserWord(userId: int, d: WordDraft, now: Timestamp) returns (outcome: Outcome)
      requires Valid()
      modifies db
      ensures (db.State(), outcome) == RepositoryModel.AddUserWord(old(db.State()), userId, d, now)
      ensures Valid()
    {
      ghost var t := db.State();
      var wordData := GetWords(d.enWord, false);
      var userData := GetUsers(userId);
      if |userData| == 0 {
        return Skipped;
      }
      if |wordData| == 0 {
        var added := AddWord(d, true);
        if added == Refused {
          return Refused;
        }
        wordData := GetWords(d.enWord, true);
      }
      assert WordsToLink(t, d) == Some((db.State(), wordData));
      LinkAll(userId, wordData, now);
      outcome := Done;
    }

    /** The linking loop of `add_user_word`, then the bulk insert of the rows it queued. */
    method LinkAll(userId: int, words: seq<Word>, now: Timestamp)
      modifies db
      ensures db.State() == RepositoryModel.LinkAll(old(db.State()), userId, words, now)
    {
      var wordIds := IdsOf(words);
      if |wordIds| > 0 {
        var rows := LinkLoop(userId, wordIds, NextId(PairIds(db.usersWords)), now);
        if |rows| > 0 && BulkAccepted(db.State(), rows) {
          db.usersWords := db.usersWords + rows;
        }
      }
    }

    method RemoveUserWord(userId: int, enWord: string, now: Timestamp)
      requires Valid()
      modifies db
      ensures db.State() == RepositoryModel.RemoveUserWord(old(db.State()), userId, enWord, now)
      ensures Valid()
    {
      ghost var t := db.State();
      var curated := GetWords(enWord, false);
      var byUsers := GetWords(enWord, true);
      var wordIds := IdsOf(curated + byUsers);
      var pairs := DeactivateLoop(db.usersWords, userId, wordIds, now);
      db.usersWords := pairs;
    }

    method DeleteUserWordPair(userId: int, enWord: string)
      requires Valid()
      modifies db
      ensures db.State() == RepositoryModel.DeleteUserWordPair(old(db.State()), userId, enWord)
      ensures Valid()
    {
      ghost var t := db.State();
      var curated := GetWords(enWord, false);
      var byUsers := GetWords(enWord, true);
      var wordIds := IdsOf(curated + byUsers);
      var pairs := UnlinkLoop(db.usersWords, userId, wordIds);
      db.usersWords := pairs;
    }

    /** The dictionaries of `get_user_words`, built row by row from the joined query. */
    method GetUserWords(userId: int, posName: Option<string>) returns (r: seq<UserWordView>)
      ensures r == RepositoryModel.GetUserWords(db.State(), userId, posName)
    {
      var rows := JoinRows(db.State(), db.usersWords, userId, posName);
      r := [];
      var k := 0;
      while k < |rows|
        invariant 0 <= k <= |rows|
        invariant |r| == k && forall j :: 0 <= j < k ==> r[j] == ViewOf(rows[j].0, rows[j].1)
      {
        r := r + [ViewOf(rows[k].0, rows[k].1)];
        k := k + 1;
      }
    }

    /** The user's distinct English words, taking each joined row's word id. */
    method GetUniqueUserWords(userId: int) returns (r: Option<seq<string>>)
      ensures r == RepositoryModel.GetUniqueUserWords(db.State(), userId)
    {
      var rows := JoinWordRows(db.State(), db.usersWords, userId);
      if |rows| == 0 {
        return None;
      }
      var wordIds: seq<int> := [];
      var k := 0;
      while k < |rows|
        invariant 0 <= k <= |rows|
        invariant |wordIds| == k && forall j :: 0 <= j < k ==> wordIds[j] == rows[j].0.id
      {
        wordIds := wordIds + [rows[k].0.id];
        k := k + 1;
      }
      assert wordIds == JoinedWordIds(rows);
      var unique := DistinctEnWords(db.State(), wordIds);
      if |unique| == 0 {
        return None;
      }
      var words: seq<string> := [];
      k := 0;
      while k < |unique|
        invariant 0 <= k <= |unique|
        invariant words == unique[..k]
      {
        words := words + [unique[k]];
        k := k + 1;
      }
      assert unique[..k] == unique;
      r := Some(words);
    }
  }
}
