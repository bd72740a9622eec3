/**
 * `DBCreation`: filling an empty database with the four standard parts of speech and with
 * the developer's word list, one CSV row per word (the rows are given as values; reading
 * the file is not modelled).
 */
module CreationModel {
  import opened Common
  import opened Structure
  import opened RepositoryModel

  /** The parts of speech `prepare_pos` writes, with their fixed ids. */
  function StandardPos(): (r: seq<Pos>)
    ensures PosTableValid(r) && |r| == 4
  {
    var r := [Pos(1, "noun"), Pos(2, "verb"), Pos(3, "adjective"), Pos(4, "unidentified")];
    assert PosIds(r) == [1, 2, 3, 4];
    r
  }

  /** `prepare_pos`: the standard rows go into an empty `pos` table; a non-empty one is left alone. */
  function PreparePos(t: Tables): (r: Tables)
    ensures |t.pos| == 0 ==> r == t.(pos := StandardPos())
    ensures |t.pos| > 0 ==> r == t
    ensures Invariant(t) ==> Invariant(r)
  {
    if |t.pos| == 0 then
      assert PosIds(t.pos) == [];
      t.(pos := StandardPos())
    else t
  }

  /** Seeding the parts of speech twice is seeding them once. */
  lemma PreparePosIdempotent(t: Tables)
    ensures PreparePos(PreparePos(t)) == PreparePos(t)
    ensures |PreparePos(t).pos| > 0
  {
  }

  /** `DBCreation.get_pos`: the pos rows, or `None` (not an empty list) when there are none. */
  function GetPosList(t: Tables): (r: Option<seq<Pos>>)
    ensures r.None? <==> |t.pos| == 0
    ensures r.Some? ==> forall p :: p in r.value <==> p in t.pos
  {
    if |t.pos| == 0 then None else Some(t.pos)
  }

  /** Number of columns a data row must have: the mapping reads columns 0 to 7. */
  const ROW_COLUMNS := 8

  /**
   * The word for the data row at position `idx` (after the header): id `idx + 1`, the
   * part of speech named in column 1; `None` where the source raises an IndexError
   * (a missing column, or no pos with that name, so `pop()` meets an empty list).
   */
  function RowWord(idx: nat, row: seq<string>, pos: seq<Pos>): (r: Option<Word>)
    ensures r.Some? <==> |row| >= ROW_COLUMNS && HasPosNamed(pos, row[1])
    ensures r.Some? ==> && r.value.id == idx + 1 && !r.value.isAddedByUsers
                        && r.value.enWord == row[0] && r.value.mp3Url == Some(row[3])
                        && r.value.ruWord == row[4] && r.value.enTrans == Some(row[5])
                        && r.value.enExample == row[6] && r.value.ruExample == row[7]
    ensures r.Some? ==> Some(r.value.idPos) == PosIdOf(pos, row[1])
  {
    if |row| < ROW_COLUMNS then None
    else
      match PosIdOf(pos, row[1])
      case None => None
      case Some(idPos) => Some(Word(idx + 1, row[0], Some(row[5]), Some(row[3]), idPos, row[4], row[6], row[7], false))
  }

  /** The words of all data rows, in order; `None` when one of them raises. */
  function RowWords(rows: seq<seq<string>>, pos: seq<Pos>): (r: Option<seq<Word>>)
    ensures r.Some? <==> forall i :: 0 <= i < |rows| ==> RowWord(i, rows[i], pos).Some?
    ensures r.Some? ==> |r.value| == |rows| && forall i :: 0 <= i < |rows| ==> r.value[i] == RowWord(i, rows[i], pos).value
    decreases |rows|
  {
    if |rows| == 0 then Some([])
    else
      var n := |rows| - 1;
      var front := rows[..n];
      assert forall i :: 0 <= i < n ==> front[i] == rows[i];
      match RowWords(front, pos)
      case None => None
      case Some(ws) =>
        match RowWord(n, rows[n], pos)
        case None => None
        case Some(w) => Some(ws + [w])
  }

  /** How `prepare_words` ends: the batch was stored, the IntegrityError of the batch was swallowed, or an exception escaped. */
  datatype LoadOutcome = Loaded | Duplicate | Raised

  /** A row the database stops at: a value too long for its column, or an id already taken. */
  predicate Rejected(t: Tables, w: Word) {
    !WordFits(w) || w.id in WordIds(t.words)
  }

  /** The first word of the batch the database stops at, if any. */
  function RejectedIndex(t: Tables, objs: seq<Word>): (r: Option<nat>)
    ensures r.Some? ==> r.value < |objs| && Rejected(t, objs[r.value])
    ensures r.None? <==> forall k :: 0 <= k < |objs| ==> !Rejected(t, objs[k])
  {
    FirstIndex(objs, (w: Word) => Rejected(t, w))
  }

  /**
   * `prepare_words` on the rows of `database.csv` (`data`, header first). The parts of speech
   * are seeded and committed first; then the words go in as one batch. The database stops at
   * the first rejected row: a too-long value raises a DataError, which escapes, while a
   * taken id raises an IntegrityError, which is swallowed; either way none of the batch is stored.
   */
  function PrepareWords(t: Tables, data: seq<seq<string>>): (r: (Tables, LoadOutcome))
    ensures r.0.pos == PreparePos(t).pos && r.0.users == t.users && r.0.usersWords == t.usersWords
    ensures r.1 != Loaded ==> r.0 == PreparePos(t)
    ensures r.1 == Loaded ==>
      var rows := if |data| == 0 then [] else data[1..];
      && RowWords(rows, PreparePos(t).pos).Some?
      && r.0.words == t.words + RowWords(rows, PreparePos(t).pos).value
    ensures Invariant(t) ==> Invariant(r.0)
  {
    var t1 := PreparePos(t);
    match GetPosList(t1)
    case None => (t1, Loaded)
    case Some(posData) =>
      var rows := if |data| == 0 then [] else data[1..];
      match RowWords(rows, posData)
      case None => (t1, Raised)
      case Some(objs) =>
        match RejectedIndex(t1, objs)
        case Some(k) => if !WordFits(objs[k]) then (t1, Raised) else (t1, Duplicate)
        case None =>
          assert posData == t1.pos;
          var r := t1.(words := t1.words + objs);
          assert Invariant(t) ==> Invariant(r) by {
            if Invariant(t) { RowBatchKeepsValid(t1, rows, objs); }
          }
          (r, Loaded)
  }

  /** The words built from the rows, none of them rejected, keep the database valid. */
  lemma RowBatchKeepsValid(t: Tables, rows: seq<seq<string>>, objs: seq<Word>)
    requires Invariant(t) && RowWords(rows, t.pos) == Some(objs)
    requires forall k :: 0 <= k < |objs| ==> !Rejected(t, objs[k])
    ensures Invariant(t.(words := t.words + objs))
  {
    forall k | 0 <= k < |objs| ensures objs[k].idPos in PosIds(t.pos) && objs[k].id == k + 1 {
      assert objs[k] == RowWord(k, rows[k], t.pos).value;
      var i :| 0 <= i < |t.pos| && t.pos[i].posName == rows[k][1] && t.pos[i].id == objs[k].idPos;
      assert PosIds(t.pos)[i] == objs[k].idPos;
    }
    BatchKeepsValid(t, objs);
  }

  lemma BatchKeepsValid(t: Tables, objs: seq<Word>)
    requires Invariant(t)
    requires forall k :: 0 <= k < |objs| ==> !Rejected(t, objs[k]) && objs[k].id == k + 1
    requires forall k :: 0 <= k < |objs| ==> objs[k].idPos in PosIds(t.pos)
    ensures Invariant(t.(words := t.words + objs))
  {
    var all := t.words + objs;
    var n := |t.words|;
    forall i, j | 0 <= i < j < |all| ensures WordIds(all)[i] != WordIds(all)[j] {
      if j >= n {
        assert all[j] == objs[j - n];
        if i >= n { assert all[i] == objs[i - n]; } else { assert WordIds(t.words)[i] == all[i].id; }
      } else {
        assert WordIds(t.words)[i] == all[i].id && WordIds(t.words)[j] == all[j].id;
      }
    }
    forall i | 0 <= i < |all| ensures WordFits(all[i]) && all[i].idPos in PosIds(t.pos) {
      if i >= n { assert all[i] == objs[i - n]; }
    }
    forall j | 0 <= j < |t.usersWords| ensures t.usersWords[j].wordId in WordIds(all) {
      var i :| 0 <= i < |t.words| && t.words[i].id == t.usersWords[j].wordId;
      assert WordIds(all)[i] == t.words[i].id;
    }
  }

  /**
   * Loading the word list a second time stores nothing more: the ids of the first batch are
   * taken, so the second batch meets an IntegrityError, which is swallowed.
   */
  lemma PrepareWordsIdempotent(t: Tables, data: seq<seq<string>>)
    requires PrepareWords(t, data).1 == Loaded
    ensures PrepareWords(PrepareWords(t, data).0, data).0 == PrepareWords(t, data).0
  {
    var once := PrepareWords(t, data).0;
    var t1 := PreparePos(t);
    var rows := if |data| == 0 then [] else data[1..];
    assert PreparePos(once) == once;
    var objs := RowWords(rows, t1.pos).value;
    if |objs| > 0 {
      assert once.words == t.words + objs;
      assert once.words[|t.words|] == objs[0];
      assert WordIds(once.words)[|t.words|] == objs[0].id;
      assert Rejected(once, objs[0]);
    }
  }

}

/** `DBCreation` over the live database: each method leaves the state its `CreationModel` function describes. */
module Creation {
  import opened Common
  import opened Structure
  import opened RepositoryModel
  import opened CreationModel
  import Repository

  class DBCreation {
    const db: Database

    ghost predicate Valid()
      reads db
    {
      Invariant(db.State())
    }

    constructor (db: Database)
      requires Invariant(db.State())
      ensures this.db == db && Valid()
    {
      this.db := db;
    }

    method PreparePos()
      requires Valid()
      modifies db
      ensures db.State() == CreationModel.PreparePos(old(db.State()))
      ensures Valid()
    {
      if |db.pos| == 0 {
        db.pos := [Pos(1, "noun"), Pos(2, "verb"), Pos(3, "adjective"), Pos(4, "unidentified")];
      }
    }

    method GetPos() returns (r: Option<seq<Pos>>)
      ensures r == GetPosList(db.State())
    {
      if |db.pos| == 0 {
        return None;
      }
      var list: seq<Pos> := [];
      var k := 0;
      while k < |db.pos|
        invariant 0 <= k <= |db.pos|
        invariant list == db.pos[..k]
      {
        list := list + [db.pos[k]];
        k := k + 1;
      }
      assert db.pos[..k] == db.pos;
      r := Some(list);
    }

    /** One data row as a word: its columns, and the id found by a scan of the pos list. */
    method RowToWord(idx: nat, row: seq<string>, posData: seq<Pos>) returns (w: Option<Word>)
      ensures w == RowWord(idx, row, posData)
    {
      if |row| < ROW_COLUMNS {
        return None;
      }
      var ids := Repository.PosIdsNamed(posData, row[1]);
      if |ids| == 0 {
        return None;
      }
      w := Some(Word(idx + 1, row[0], Some(row[5]), Some(row[3]), ids[|ids| - 1], row[4], row[6], row[7], false));
    }

    /** The loop of `prepare_words` over the data rows: the batch, or `None` where a row raises. */
    method BuildBatch(rows: seq<seq<string>>, posData: seq<Pos>) returns (objs: Option<seq<Word>>)
      ensures objs == RowWords(rows, posData)
    {
      var list: seq<Word> := [];
      var idx := 0;
      while idx < |rows|
        invariant 0 <= idx <= |rows|
        invariant RowWords(rows[..idx], posData) == Some(list)
      {
        assert rows[..idx + 1][..idx] == rows[..idx];
        var w := RowToWord(idx, rows[idx], posData);
        if w.None? {
          return None;
        }
        list := list + [w.value];
        idx := idx + 1;
      }
      assert rows[..idx] == rows;
      objs := Some(list);
    }

    method PrepareWords(data: seq<seq<string>>) returns (outcome: LoadOutcome)
      requires Valid()
      modifies db
      ensures (db.State(), outcome) == CreationModel.PrepareWords(old(db.State()), data)
      ensures Valid()
    {
      PreparePos();
      var posData := GetPos();
      if posData.None? {
        return Loaded;
      }
      var rows := if |data| == 0 then [] else data[1..];
      var objs := BuildBatch(rows, posData.value);
      if objs.None? {
        return Raised;
      }
      var t := db.State();
      var rejected := RejectedIndex(t, objs.value);
      if rejected.Some? {
        return if !WordFits(objs.value[rejected.value]) then Raised else Duplicate;
      }
      db.words := db.words + objs.value;
      outcome := Loaded;
    }
  }
}
