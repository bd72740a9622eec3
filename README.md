# EngStudyBot — a verified model of its core

EngStudyBot is a Telegram bot for learning English words. A user is shown the Russian
translation of an English word together with four English buttons (the right word and three
other words drawn from the user's list) and three control buttons ("next", "add word",
"delete word"). The word lists live in a PostgreSQL database of four tables: `pos` (parts of
speech), `words`, `users` and `users_words` (which user studies which word, with a soft
"is added" flag). The database is seeded from a CSV file built by scraping the Oxford and
PROMT.One dictionaries.

This project models, in Dafny, the parts of that program that decide things:

- the schema and its constraints (`structure.dfy`, module `Structure`), with a `Database`
  class holding the four tables as sequences of rows;
- every operation of `DBRepository` (`repository_model.dfy`, module `RepositoryModel`, as
  functions from a table snapshot to the new snapshot and an outcome; `repository.dfy`,
  module `Repository`, as methods of a class over the live `Database` whose contracts say
  they leave exactly the state the function describes);
- the seeding done by `DBCreation` (`creation.dfy`, modules `CreationModel` and `Creation`);
- the helpers of `Functionality` (`functionality.dfy`): the letter check, the random draw
  of a question, the keyboard layout, the hint strings and the recording file name;
- the record building of `Parsing` (`parsing.dfy`): the PROMT records, the merge with the
  Oxford link, the dropping of untranslated records and the user recording's file name;
- the bot's handlers (`connection.dfy`): `ConnectionModel` gives each handler as a function
  from (tables, session, message) to (new tables, new session, messages sent); class
  `Connection.Bot` holds the per-user pending question and the shared keyboard and runs the
  handlers over the repository;
- the shaping of the scraped data into CSV rows (`data.dfy`, module `Data`).

Modelling choices:

- A database exception that the source does not catch is the outcome `Refused` (the
  operation changes nothing); a row the source finds already present is `Skipped`. Bulk
  inserts whose IntegrityError is swallowed give `Swallowed`.
- Query results come back in table order (the SQL has no ORDER BY).
- `datetime.now()` is a `Timestamp` parameter. `random.randint(low, n)` is `low + d % n` for a
  supplied draw `d`, and `random.shuffle` is a supplied sequence of swap positions.
- Three defects are recorded under "## Findings", each with a member for the code as written and a
  corrected member. The bot's handlers are built on the corrected members: questions are drawn
  with 0-based indexes, and words are looked up and counted by their word ids. "## Left out" lists
  every handler member this affects.
- The pages the bot scrapes are inputs: the parsed PROMT map (`None` when the page could not
  be fetched) and the Oxford recording link.
- Messages the bot sends are `Event`s; the handlers' results list them in order.
- The database's text width limits (85, 350 and 1500 characters) are modelled, since a value
  that is too long raises a DataError.

## Model

| member | source | states |
|---|---|---|
| Structure.PosTableValid | database/structure.py:21-32 | `pos` ids are distinct, names are distinct and fit `String(85)` |
| Structure.WordsTableValid | database/structure.py:54-98 | `words` ids are distinct; each row fits its column lengths and its `id_pos` is an id of `pos` |
| Structure.UsersTableValid | database/structure.py:113-134 | `users` ids are distinct, usernames are distinct, and the names fit `String(85)` |
| Structure.UsersWordsTableValid | database/structure.py:157-193 | `users_words` ids are distinct; each row's `user_id` is a user and its `word_id` a word |
| Structure.SchemaValid | database/structure.py:11-193 | every constraint the four tables declare |
| Structure.DuplicatePairsAllowed | database/structure.py:159-193 | a database satisfying every declared constraint can hold two `users_words` rows for the same user and word, because `users_words` is keyed by `id` only |
| Structure.DeleteUserCascade | database/structure.py:164-169 | deleting a user removes the user's row and exactly the `users_words` rows of that user (ON DELETE CASCADE); the other tables are untouched |
| Structure.DeleteUserCascadeValid | database/structure.py:164-169 | the cascade keeps every schema constraint |
| RepositoryModel.AddPos | database/repository.py:55-75 | an existing name is skipped and a name over 85 characters refused, both leaving the tables as they were; otherwise exactly one row `(max id + 1, name)` is appended (id 1 on an empty table); the invariant is kept |
| Repository.DBRepository.AddPos | database/repository.py:55-75 | leaves the database in the state `RepositoryModel.AddPos` gives |
| RepositoryModel.UpdatePos | database/repository.py:94-106 | a rename happens only when the old name exists and the new one does not, and a name over 85 characters is refused; the row that held the old name is renamed in place, keeping its id, and every other row stays; the other tables are unchanged; afterwards the new name is present and the old one gone |
| Repository.DBRepository.UpdatePos | database/repository.py:94-106 | leaves the database in the state `RepositoryModel.UpdatePos` gives |
| RepositoryModel.DeletePos | database/repository.py:123-129 | a missing name is skipped; a pos that some word references is refused by the foreign key; otherwise exactly that row is removed |
| Repository.DBRepository.DeletePos | database/repository.py:123-129 | leaves the database in the state `RepositoryModel.DeletePos` gives |
| RepositoryModel.GetPos | database/repository.py:146-158 | lists exactly the rows of `pos` |
| Repository.DBRepository.GetPos | database/repository.py:146-158 | returns what `RepositoryModel.GetPos` gives |
| RepositoryModel.PosIdOf | database/repository.py:176-181 | the id of the pos with the given name, present exactly when such a pos exists, and unique in a valid table |
| Repository.PosIdsNamed | database/repository.py:176-180 | the loop gathering the ids of the pos rows with the given name computes `RepositoryModel.IdsNamed` |
| RepositoryModel.WordIndex | database/repository.py:195-197 | the position of a word with the given English word and pos id, present exactly when such a word exists |
| RepositoryModel.WordRow | database/repository.py:200-231 | the row `add_word` builds exists exactly when the translation and both examples are given, and stores every field of the draft |
| RepositoryModel.AddWord | database/repository.py:176-231 | nothing happens for an unknown pos; a draft missing its translation or an example, or too long for its column, is refused; a new (word, pos) pair is appended after the old rows with id max id + 1 (1 on an empty table) and every field of the draft; an existing pair has its first row overwritten in place, keeping its id, while every other row stays; the other tables and the invariant are kept |
| Repository.DBRepository.AddWord | database/repository.py:173-233 | leaves the database in the state `RepositoryModel.AddWord` gives |
| RepositoryModel.DeleteWord | database/repository.py:244-270 | a (word, pos) pair that does not exist is skipped; a word some `users_words` row references is refused; otherwise exactly that word is removed |
| RepositoryModel.WordLinked | database/repository.py:266-268 | the position of a `users_words` row that references the word, present exactly when one does (the foreign key that refuses the delete) |
| Repository.DBRepository.DeleteWord | database/repository.py:244-270 | leaves the database in the state `RepositoryModel.DeleteWord` gives |
| RepositoryModel.GetWords | database/repository.py:293-321 | exactly the words whose "added by users" flag is the one asked for, and when a word is given, only those with that English word |
| Repository.DBRepository.GetWords | database/repository.py:293-321 | returns what `RepositoryModel.GetWords` gives |
| RepositoryModel.UserRow | database/repository.py:341-359 | a user row exists exactly when all three names are given (they are NOT NULL) and then holds them |
| RepositoryModel.AddUser | database/repository.py:332-361 | an upsert by `user_id`: afterwards the users are the old ones without that id plus the new row; missing names, names too long or a username another user has are refused and change nothing |
| Repository.DBRepository.AddUser | database/repository.py:332-361 | leaves the database in the state `RepositoryModel.AddUser` gives |
| RepositoryModel.DeleteUser | database/repository.py:376-384 | an unknown id is skipped; otherwise the user and, by the cascade, exactly that user's `users_words` rows go |
| RepositoryModel.DeleteUserKeepsInvariant | database/repository.py:376-384 | deleting a user with its cascade keeps every constraint |
| RepositoryModel.DeleteUserLeavesOthers | database/repository.py:376-384 | after the delete the users are exactly the old ones with a different id |
| Repository.DBRepository.DeleteUser | database/repository.py:376-384 | leaves the database in the state `RepositoryModel.DeleteUser` gives |
| RepositoryModel.GetUsers | database/repository.py:404-425 | exactly the user with the given id, or every user when no id is given |
| Repository.DBRepository.GetUsers | database/repository.py:404-425 | returns what `RepositoryModel.GetUsers` gives |
| RepositoryModel.SeedRows | database/repository.py:477-488 | word `k` of the curated list gets the row `(start + k, user, word, active, not a user word, now, no deletion date)` |
| RepositoryModel.SeedUser | database/repository.py:445-447 | the user id the seeding uses: for a non-zero id, that id when the user exists and 0 otherwise; for id 0, where `get_users(0)` returns every user, the id of the last user, or 0 on an empty table |
| RepositoryModel.PrepareUserWordPairs | database/repository.py:437-500 | nothing is inserted exactly when the user is missing, already has a `users_words` row, or no curated word exists; otherwise, on a valid database, the insert happens and appends one active curated-word row per developer word, with ids counting up from max id + 1; nothing else changes; the invariant is kept |
| RepositoryModel.SeedLinksCurated | database/repository.py:437-500 | after a seeding, the user has an active row for every curated word |
| RepositoryModel.PrepareUserWordPairsIdempotent | database/repository.py:437-500 | seeding twice leaves the tables as seeding once |
| Repository.DBRepository.SeedRowsFor | database/repository.py:477-488 | builds the rows `RepositoryModel.SeedRows` gives |
| Repository.DBRepository.PrepareUserWordPairs | database/repository.py:437-500 | leaves the database in the state `RepositoryModel.PrepareUserWordPairs` gives |
| RepositoryModel.Reactivated | database/repository.py:572-576 | a reactivated row is active, dated now, without a deletion date, and keeps its id, user, word and kind |
| RepositoryModel.LinkIndex | database/repository.py:558-560 | the position of the first row of this user for this word, present exactly when the user has such a row |
| RepositoryModel.ActiveLinkIndex | database/repository.py:621-623 | the position of the first active row of this user for this word, present exactly when there is one |
| RepositoryModel.LinkWords | database/repository.py:553-578 | the loop of `add_user_word`: only inactive rows of this user for the words given may change, and each into its reactivated form; the row keys stay the same |
| RepositoryModel.LinkWordsRows | database/repository.py:553-578 | the rows queued for insertion are exactly one new active user-word row, with id `start + k`, for each word `k` the user has no row for |
| RepositoryModel.LinkWordsActive | database/repository.py:553-578 | after the loop every word given has an active row for the user, either reactivated or queued |
| RepositoryModel.LinkWordsQueuesNothing | database/repository.py:553-578 | when the user has a row for every word, nothing is queued |
| Repository.DBRepository.LinkLoop | database/repository.py:553-578 | runs the loop that `RepositoryModel.LinkWords` describes |
| RepositoryModel.WordsToLink | database/repository.py:517-535 | the words to link are the curated words with that English word, or else the user word `add_word` creates; none when that insertion is refused |
| RepositoryModel.LinkAll | database/repository.py:537-593 | the linking and the bulk insert change only `users_words`: an old row either stays or, when it is an inactive row of this user for one of the words, is reactivated in place; the rows after the old ones are new active user-word rows for words the user had no row for, with increasing ids from max id + 1 |
| Repository.DBRepository.LinkAll | database/repository.py:537-593 | leaves the database in the state `RepositoryModel.LinkAll` gives |
| RepositoryModel.LinkAllKeepsInvariant | database/repository.py:537-593 | the linking keeps every constraint and keeps (user, word) pairs unique |
| RepositoryModel.LinkAllActivates | database/repository.py:537-593 | afterwards the user has an active row for each word linked |
| RepositoryModel.AddUserWord | database/repository.py:517-595 | nothing happens for an unknown user; when no curated word has that English word, the word is created through `add_word` as a user word, and the call is refused exactly when that insertion is; otherwise the words table is unchanged; in `users_words` an old row either stays or is an inactive row of this user that is reactivated, and the rows added are new active user-word rows with ids after the max; `pos` and `users` stay, the invariant is kept, and every target word ends with an active row for the user |
| RepositoryModel.AddWordKeepsWord | database/repository.py:176-231 | the upsert keeps each old row's id and English word |
| RepositoryModel.AddUserWordKeepsHeld | database/repository.py:517-595 | `add_user_word` takes no word away from the user |
| RepositoryModel.AddUserWordHolds | database/repository.py:517-595 | for a known user on a valid database and a non-empty word that is curated or whose part of speech is in `pos`, a call that does not raise succeeds and the user has the word afterwards |
| RepositoryModel.AddUserWordCreates | database/repository.py:517-595 | a word the developer's list lacks, with its part of speech in `pos`, is created as a user word, and a known user has it once the call does not raise |
| RepositoryModel.AddUserWordStep | database/repository.py:517-595 | one call as a loop sees it: nothing held is lost, and the word is gained |
| RepositoryModel.AddUserWordRestores | database/repository.py:517-595 | for a curated word the user has a row for, `add_user_word` reactivates it without inserting anything, and the user has the word again |
| RepositoryModel.CuratedRelinkQueuesNothing | database/repository.py:517-595 | when the user has a row for every curated word of that English word, `add_user_word` keeps the row keys of `users_words` as they were |
| Repository.DBRepository.AddUserWord | database/repository.py:517-595 | leaves the database in the state `RepositoryModel.AddUserWord` gives |
| RepositoryModel.Deactivated | database/repository.py:625-628 | a deactivated row is inactive, with no date added and a deletion date of now, and keeps its id, user, word and kind |
| RepositoryModel.DeactivateAll | database/repository.py:614-631 | only active rows of this user for the given words change, each into its deactivated form |
| RepositoryModel.DeactivateAllClears | database/repository.py:614-631 | afterwards none of those words has an active row for the user |
| Repository.DeactivateLoop | database/repository.py:614-631 | the loop over the word ids leaves the rows `RepositoryModel.DeactivateAll` gives |
| RepositoryModel.NamedWordIds | database/repository.py:609-611 | the ids of the words (of either flag) with that English word |
| Repository.IdsOf | database/repository.py:531-533 | the loop collecting the `id` of each word, in order, computes the word ids |
| RepositoryModel.RemoveUserWord | database/repository.py:609-631 | only this user's active rows for words named `en_word` change, each into its deactivated form; no other table changes; afterwards none of those words is active for the user |
| RepositoryModel.RemoveUserWordClears | database/repository.py:609-631 | afterwards the user has no active row for a word with that English word |
| RepositoryModel.NotHeldNotListed | database/repository.py:686-716 | a word the user has no active row for is not among the user's listed words |
| RepositoryModel.RemoveUserWordHides | database/repository.py:609-631 | after the removal the word is in neither `get_user_words` nor `get_unique_user_words` for that user |
| RepositoryModel.RemoveUserWordCount | database/repository.py:609-631 | the number of active rows never grows, and shrinks exactly when the user had the word |
| RepositoryModel.RemoveUserWordChanges | database/repository.py:609-631 | the removal changes `users_words` exactly when the user had the word |
| RepositoryModel.RemoveKeepsLinks | database/repository.py:609-631 | removal is soft: every (user, word) row stays, only its flag changes |
| RepositoryModel.RemoveThenAddUserWord | database/repository.py:517-631 | removing a curated word and adding it back restores it with the same row keys |
| Repository.DBRepository.RemoveUserWord | database/repository.py:609-631 | leaves the database in the state `RepositoryModel.RemoveUserWord` gives |
| RepositoryModel.UnlinkAll | database/repository.py:650-665 | exactly the rows of this user for the given words are removed |
| RepositoryModel.RemoveAtDropsKey | database/repository.py:657-663 | with unique (user, word) pairs, deleting one row drops exactly the rows with its user and word |
| Repository.UnlinkLoop | database/repository.py:650-665 | the loop over the word ids leaves the rows `RepositoryModel.UnlinkAll` gives |
| RepositoryModel.DeleteUserWordPair | database/repository.py:645-665 | exactly the user's rows for words named `en_word` are deleted; the other tables and rows stay |
| Repository.DBRepository.DeleteUserWordPair | database/repository.py:645-665 | leaves the database in the state `RepositoryModel.DeleteUserWordPair` gives |
| RepositoryModel.JoinRows | database/repository.py:686-700 | the joined rows are rows of this user, active, with their word and the word's pos (of the given name when asked) |
| RepositoryModel.JoinRowsCount | database/repository.py:686-700 | without a pos filter there is one joined row per active row of the user |
| RepositoryModel.GetUserWords | database/repository.py:682-718 | one record per active row of the user (restricted to the pos asked for), holding the word's fields and the pos name; inactive rows never appear |
| RepositoryModel.JoinRowsComplete | database/repository.py:686-700 | with distinct word and pos ids, every active row of the user whose word has a pos passing the filter is joined with that word and pos |
| RepositoryModel.GetUserWordsComplete | database/repository.py:682-718 | on a valid database every active word of the user whose part of speech is the one asked for (or any, without a filter) is listed |
| Repository.DBRepository.GetUserWords | database/repository.py:682-718 | returns what `RepositoryModel.GetUserWords` gives |
| RepositoryModel.JoinWordRows | database/repository.py:736-740 | the joined (word, row) pairs are active rows of this user with their word |
| RepositoryModel.JoinWordRowsComplete | database/repository.py:736-740 | every active row of the user appears in the join with its word |
| RepositoryModel.DistinctEnWords | database/repository.py:752-756 | the distinct English words of the given word ids |
| RepositoryModel.GetUniqueUserWordsAsWritten | database/repository.py:732-765 | as written: the words whose id equals the id of one of the user's active rows, without repeats; `None` when there are none |
| RepositoryModel.UniqueUserWordsUsesRowIds | database/repository.py:746-747 | on a valid database whose row 1 links the user to word 5 ("cat"), the code as written lists "dog" (word 1) and not "cat"; the corrected function lists "cat" |
| RepositoryModel.GetUniqueUserWords | database/repository.py:732-765 | corrected: exactly the English words the user has an active row for, without repeats, and `None` rather than an empty list when there are none |
| Repository.DBRepository.GetUniqueUserWords | database/repository.py:732-765 | returns what `RepositoryModel.GetUniqueUserWords` gives |
| CreationModel.StandardPos | database/creation.py:108-118 | the four fixed rows `prepare_pos` writes form a valid `pos` table: distinct ids and names that fit the column |
| CreationModel.PreparePos | database/creation.py:108-118 | an empty `pos` table receives the four standard rows; a non-empty one is left alone |
| CreationModel.PreparePosIdempotent | database/creation.py:108-118 | a second `prepare_pos` changes nothing |
| Creation.DBCreation.PreparePos | database/creation.py:108-118 | leaves the database in the state `CreationModel.PreparePos` gives |
| CreationModel.GetPosList | database/creation.py:135-144 | every pos row, but `None` rather than an empty list when there are none |
| Creation.DBCreation.GetPos | database/creation.py:135-144 | returns what `CreationModel.GetPosList` gives |
| CreationModel.RowWord | database/creation.py:165-183 | data row `i` gives the curated word with id `i + 1` and columns 0, 3, 4, 5, 6, 7 in place, and the id of the pos named in column 1; a short row or an unknown pos name raises |
| Creation.DBCreation.RowToWord | database/creation.py:165-183 | computes what `CreationModel.RowWord` gives |
| CreationModel.RowWords | database/creation.py:163-184 | the batch is the word of every data row in order, or nothing when one row raises |
| CreationModel.RejectedIndex | database/creation.py:190-195 | a word of the batch the database refuses (its id already taken or a field too long for its column), present exactly when one is refused |
| CreationModel.RowBatchKeepsValid | database/creation.py:186-192 | a batch the database accepts, appended to a valid database, keeps every constraint |
| Creation.DBCreation.BuildBatch | database/creation.py:163-184 | computes what `CreationModel.RowWords` gives |
| CreationModel.PrepareWords | database/creation.py:159-195 | the parts of speech are seeded first and stay seeded; the rows after the CSV header are stored whole or not at all; when stored, the words are the old ones followed by the word of each row in order; users and `users_words` are untouched; the invariant is kept |
| CreationModel.PrepareWordsIdempotent | database/creation.py:159-195 | loading the word list twice stores it once: the second batch meets taken ids and its error is swallowed |
| Creation.DBCreation.PrepareWords | database/creation.py:159-195 | leaves the database in the state `CreationModel.PrepareWords` gives |
| Functionality.LowerChar | tgbot/connection.py:214 | a lower-cased character is not upper-case, and only upper-case characters change |
| Functionality.Lower | tgbot/connection.py:214 | `str.lower` keeps the length, leaves no upper-case letter and changes only upper-case letters |
| Functionality.LowerIdempotent | tgbot/connection.py:214 | lower-casing twice is lower-casing once |
| Functionality.GetCmdNames | tgbot/functionality.py:80-84 | the three button texts lower-cased, in the order "add word", "delete word", "next" |
| Functionality.CmdNamesValue | tgbot/functionality.py:80-84 | the lower-cased button texts spelled out |
| Functionality.ButtonTextIsCmdName | tgbot/functionality.py:80-84 | the text of a control button, lower-cased as the handlers do, is a command name |
| Functionality.CheckWordLetters | tgbot/functionality.py:188-201 | true exactly when every character is an English letter (or, for Russian, one of а-я, А-Я, ё, Ё) |
| Functionality.CheckWordLettersExamples | tests/test.py:481-498 | the cases of the test table: "test" passes the English check and fails the Russian one, "тест" and "ёлка" pass the Russian check, "тест" fails the English one, "123456" fails both; also the empty word passes both and "two words" fails the English check |
| Functionality.CmdNamesAreNotWords | tgbot/functionality.py:188-201 | no command name passes the English letter check |
| Functionality.Randint | tgbot/functionality.py:231-240 | a draw lies in `low .. low + n - 1` |
| Functionality.DrawDistractors | tgbot/functionality.py:234-243 | the loop stops with exactly three other words, each drawn at an index other than the target's and with an English word other than the target's |
| Functionality.RandomWords | tgbot/functionality.py:226-251 | fewer than four records give nothing; a question asks about the record drawn first and has three other words, each a distractor; with 0-based draws no index is ever out of range |
| Functionality.GetRandomWords | tgbot/functionality.py:226-251 | computes what `Functionality.RandomWords` gives |
| Functionality.AsWrittenIndexOutOfRange | tgbot/functionality.py:231-240 | with four records and a first draw of `randint(1, 4) = 4`, the code as written raises an IndexError, where the intended 0-based draw asks about the last record |
| Functionality.AsWrittenSkipsFirstRecord | tgbot/functionality.py:231-240 | with 1-based draws the first record is never the target nor a distractor |
| Functionality.IntendedDrawsInRange | tgbot/functionality.py:231-240 | with 0-based draws no index is out of range, and the target is record `d % n` |
| Functionality.DistractorsMayRepeat | tgbot/functionality.py:235-243 | the three other words can be the same word three times |
| Functionality.Shuffled | tgbot/functionality.py:54 | the shuffle is a permutation |
| Functionality.Shuffle | tgbot/functionality.py:54 | the swap loop computes `Functionality.Shuffled`, a permutation of its input |
| Functionality.ButtonLayout | tgbot/functionality.py:45-65 | the buttons are a permutation of the target and the other words, followed by "next", "add word" and "delete word" |
| Functionality.ButtonLayoutOfQuestion | tgbot/functionality.py:45-65 | with three other words there are seven buttons, the first four holding the target and the three others |
| Functionality.SetupButtons | tgbot/functionality.py:45-65 | builds what `Functionality.ButtonLayout` gives |
| Functionality.ShowHint | tgbot/functionality.py:266 | the lines joined by newlines: nothing for none, the line itself for one, and the first line first |
| Functionality.SplitShowHint | tgbot/functionality.py:266 | splitting the joined hint at newlines gives back the lines when none of them holds a newline |
| Functionality.ShowTarget | tgbot/functionality.py:307 | the target, then " -> ", then the translation |
| Functionality.CorrectHint | tgbot/connection.py:391-393 | the praise line followed by the "target -> translation" line |
| Functionality.MistakeHint | tgbot/connection.py:403-405 | the hint starts with "Допущена ошибка!" |
| Functionality.RemoveLastSpace | tgbot/functionality.py:147-149 | removes one character exactly when the word has a space |
| Functionality.ReverseRemovesLastSpace | tgbot/functionality.py:147-149 | reversing, removing the first space and reversing back removes the last space |
| Functionality.Mp3Name | tgbot/functionality.py:141-149 | "word transcription.mp3" when the transcription has non-blank content, and otherwise the word without its last space plus ".mp3" |
| Functionality.Mp3Audio | tgbot/functionality.py:141-165 | no audio after a mistake; a stored transcription of `None` raises; otherwise the file of `Functionality.Mp3Name` |
| Functionality.ExampleText | tgbot/functionality.py:106-124 | the example is sent only after a right answer and only when both examples exist, as a title line and the two quoted examples |
| Parsing.PresentPos | tgbot/parsing.py:159-163 | the requested parts of speech that the page lists, in request order |
| Parsing.PosRecords | tgbot/parsing.py:159-175 | one record per requested part of speech the page lists, in request order, built from that part's first translation and named by it; it raises exactly when one of them has no translation |
| Parsing.ReceivePromtData | tgbot/parsing.py:145-187 | a page that could not be fetched raises whenever parts of speech are asked for; a listed part of speech without a translation raises; otherwise the records of `Parsing.PosRecords`, or the single "unidentified" sentinel with no translation and the two "no example" texts when no requested part of speech is listed; every record names the word and has no link yet |
| Parsing.PromtRecordsTranslated | tgbot/parsing.py:159-187 | either the sentinel alone or only records with a translation |
| Parsing.ReceivePromtRecords | tgbot/parsing.py:145-187 | computes what `Parsing.ReceivePromtData` gives |
| Parsing.MergeOxford | tgbot/parsing.py:362-366 | the merge never gives more records than it gets, and each record it gives is an input record, as it is or with the Oxford link |
| Parsing.MergeKeepsAll | tgbot/parsing.py:362-366 | since a PROMT record never carries a link, the dedupe never fires: every record is kept and gets the Oxford link |
| Parsing.MergeLoop | tgbot/parsing.py:362-366 | runs the merge loop `Parsing.MergeOxford` describes |
| Parsing.DropUntranslated | tgbot/parsing.py:368-371 | the forward pop never removes a translated record and leaves a non-empty list non-empty |
| Parsing.PopForward | tgbot/parsing.py:368-371 | the pop loop from a given index never lengthens the list and only keeps records of its input |
| Parsing.PopForwardKeepsTranslated | tgbot/parsing.py:368-371 | the translated records survive the pop in order |
| Parsing.PopSkipsNext | tgbot/parsing.py:368-371 | popping while enumerating skips the element after each removal: of two untranslated records in a row, the second stays |
| Parsing.PopUntranslated | tgbot/parsing.py:368-371 | runs the pop loop `Parsing.DropUntranslated` describes |
| Parsing.UserMp3Name | tgbot/parsing.py:309-319 | no file without a link; "word transcription.mp3" with a transcription; the word without its last space plus ".mp3" otherwise |
| Parsing.Mp3NamesAgree | tgbot/parsing.py:309-319 | the file name written here is the one `get_mp3_audio` later reads, when the transcription has content |
| Parsing.Mp3NamesDisagreeOnBlank | tgbot/parsing.py:309-319 | on a blank transcription the two rules name different files |
| Parsing.FirstAudio | tgbot/parsing.py:373-382 | the recording is written for the first record with a link only, and nothing when no record has one |
| Parsing.FirstAudioLoop | tgbot/parsing.py:373-382 | computes what `Parsing.FirstAudio` gives |
| Parsing.GetWordInfo | tgbot/parsing.py:346-385 | of the steps modelled, raises exactly when the PROMT step raises (the HTTP and HTML exceptions of the fetches are left out); otherwise a non-empty list of records for the word, each with the Oxford link, and a recording exactly when the link is non-empty |
| Parsing.WordInfoOfPromt | tgbot/parsing.py:346-385 | the first record lacks a translation exactly when the result is the sentinel alone |
| Parsing.GetWordInfoLoops | tgbot/parsing.py:346-385 | computes what `Parsing.GetWordInfo` gives |
| Parsing.DraftOf | tgbot/parsing.py:346-385 | the record handed to `add_user_word` keeps the word, translation, pos and link |
| ConnectionModel.Enrol | tgbot/connection.py:33-56 | a known user is left alone with no message; an unknown one is greeted, added and seeded: on a valid database the new user ends with an active row for every word the developer added; the invariant is kept |
| ConnectionModel.EnrolSeeds | tgbot/connection.py:33-56 | a new user, once added on a valid database, is linked by the seeding to every word the developer added |
| ConnectionModel.CreateCards | tgbot/connection.py:29-92 | only a new user changes the tables and only a new user is greeted; with no question asked the session is unchanged; a question is stored for the sender only, leaving other users' questions alone |
| ConnectionModel.Ask | tgbot/connection.py:58-92 | a question drawn is stored for the user with seven buttons: the four words in some order, then the three controls; it asks about one of the records; the question is sent with the keyboard; fewer than four records send and store nothing |
| ConnectionModel.Issue | tgbot/connection.py:68-92 | the question is stored for the user and no other stored question changes; the keyboard has seven buttons, the four words in some order and then the three controls; the question is sent with it |
| ConnectionModel.CreateCardsQuestion | tgbot/connection.py:58-92 | a question sent asks about one of the user's active words of the chosen part of speech, with three other words, and its keyboard is the layout of `setup_buttons` |
| ConnectionModel.CreateCardsTooFewWords | tgbot/connection.py:58-84 | with fewer than four active words of the chosen part of speech nothing is sent or stored |
| ConnectionModel.CreateCardsEnrolsOnce | tgbot/connection.py:33-56 | asking for cards a second time leaves the tables as the first call left them |
| Connection.Bot.constructor | tgbot/connection.py:443-446 | a new bot, with a fresh state storage, has no pending questions and an empty keyboard |
| Connection.Bot.Enrol | tgbot/connection.py:33-56 | does what `ConnectionModel.Enrol` gives over the repository |
| Connection.Bot.Ask | tgbot/connection.py:58-92 | does what `ConnectionModel.Ask` gives to the session |
| Connection.Bot.CreateCards | tgbot/connection.py:29-92 | does what `ConnectionModel.CreateCards` gives |
| ConnectionModel.AfterHint | tgbot/connection.py:415-428 | after a mistake nothing follows the hint; otherwise only the recording and the example can |
| ConnectionModel.Reply | tgbot/connection.py:381-431 | the stored questions are never changed; no pending question means nothing happens; the target gets the praise with the keyboard unchanged; a wrong answer is answered exactly when one of the first four buttons has its text, and then the first such button is marked with a cross unless the text already has one; the controls are never marked |
| ConnectionModel.AnswerIndex | tgbot/connection.py:396-405 | the first of the four answer buttons whose text is the message, present exactly when one has it |
| ConnectionModel.ReplyMarksOnce | tgbot/connection.py:395-405 | giving the same wrong answer twice marks its button once and then does nothing |
| ConnectionModel.CardsThenRightAnswer | tgbot/connection.py:58-92 | right after a question, answering its target gets the praise naming the target and the translation and leaves the session as it was |
| Connection.Bot.Reply | tgbot/connection.py:381-431 | does what `ConnectionModel.Reply` gives to the session |
| ConnectionModel.DeleteWordCallback | tgbot/connection.py:124-183 | the text is lower-cased; a command name or a word that is not all English letters changes nothing and gets one reply; otherwise the word is removed and the reply says "deleted" exactly when the number of active words changed |
| ConnectionModel.DeleteReportsRemoval | tgbot/connection.py:124-183 | the "deleted" reply comes exactly when the user had the word, the "not found" reply exactly when not, and afterwards the user does not have it |
| Connection.Bot.DeleteWordCallback | tgbot/connection.py:124-183 | does what `ConnectionModel.DeleteWordCallback` gives |
| Connection.Bot.RemoveAndReport | tgbot/connection.py:150-177 | the word is removed as `RepositoryModel.RemoveUserWord` says; the reply is "not found" when the number of active words is what it was, and otherwise "deleted", followed by the new number of words when the user has any |
| ConnectionModel.AddEach | tgbot/connection.py:266-270 | the loop adding each record keeps `pos`, `users` and the invariant, and changes nothing for an unknown user |
| ConnectionModel.AddEachKeepsHeld | tgbot/connection.py:266-270 | the loop takes no word away from the user |
| ConnectionModel.AddEachStores | tgbot/connection.py:266-270 | on a valid database and for a known user, when no `add_user_word` raised, the English word of every record whose part of speech is in `pos` is a word of the user afterwards |
| ConnectionModel.AddEachLast | tgbot/connection.py:266-270 | the last `add_user_word` of the loop runs only after the earlier ones did not raise, takes no word away, and stores its record when it does not raise |
| ConnectionModel.AddEachStep | tgbot/connection.py:266-270 | one pass of the loop: the earlier records stay stored and the current one is stored |
| ConnectionModel.AddEachStops | tgbot/connection.py:266-270 | once `add_user_word` raises, no later record is stored |
| Connection.Bot.AddEachLoop | tgbot/connection.py:266-270 | runs the loop `ConnectionModel.AddEach` describes; when no call raised and the user is known, the English word of every record whose part of speech is in `pos` is a word of the user afterwards |
| ConnectionModel.AddEnWordCallback | tgbot/connection.py:211-308 | command names, a text with a cross and words that are not all English letters get one reply and change nothing; a user without active words cannot add one; every count reported is the user's new number of words; the invariant is kept (what is stored: `ConnectionModel.AddEnWordStores`) |
| ConnectionModel.AddNewWord | tgbot/connection.py:238-284 | messages are only the recording written, the new count and the request for a translation; the count reported is the new one |
| ConnectionModel.StoreInfo | tgbot/connection.py:246-284 | `pos` and `users` stay, the invariant is kept, and the only messages are the request for a translation and the user's new number of words |
| ConnectionModel.StoreUntranslated | tgbot/connection.py:246-263 | `pos` and `users` stay and the invariant is kept; the new tables are those `add_user_word` gives for the last record with an empty translation, and the translation is asked for exactly when that call did not raise |
| ConnectionModel.StoreInfoStores | tgbot/connection.py:246-270 | on a valid database and for a known user, when no `add_user_word` raised, the English word of the records is a word of the user afterwards, on both the untranslated and the translated path |
| ConnectionModel.AddEnWordStores | tgbot/connection.py:211-308 | a text that passes the checks, from a user with active words, whose lookup and `add_user_word` calls raise nothing and whose parts of speech are in `pos`, is a word of the user afterwards |
| ConnectionModel.AddEnWordPaths | tgbot/connection.py:228-284 | past the checks, a word the user already has leaves the tables alone, and a new one with a lookup that does not raise is stored by `StoreInfo` |
| ConnectionModel.UniqueWordsKnownUser | tgbot/connection.py:228-230 | on a valid database, a user for whom `get_unique_user_words` finds words is a row of `users` |
| ConnectionModel.StoreTranslated | tgbot/connection.py:265-284 | the count is reported only when the user's list of active rows changed length, and it is the new number of the user's words |
| ConnectionModel.AddEnKnownWord | tgbot/connection.py:228-236 | a word the user already has gets "already exists" and changes nothing |
| Connection.Bot.AddEnWordCallback | tgbot/connection.py:211-308 | does what `ConnectionModel.AddEnWordCallback` gives, so `ConnectionModel.AddEnWordStores` holds of it |
| Connection.Bot.AddNewWord | tgbot/connection.py:238-284 | does what `ConnectionModel.AddNewWord` gives |
| Connection.Bot.StoreUntranslated | tgbot/connection.py:246-263 | does what `ConnectionModel.StoreUntranslated` gives: the record is stored through `add_user_word` with an empty translation |
| Connection.Bot.StoreTranslated | tgbot/connection.py:265-284 | does what `ConnectionModel.StoreTranslated` gives |
| ConnectionModel.RuDraft | tgbot/connection.py:321-329 | the record of the translation step: the last English word, the translation typed, pos "unidentified" |
| ConnectionModel.AddRuWordCallback | tgbot/connection.py:310-368 | with no active row nothing happens; a translation in Russian letters is added for the English word of the user's last active row; any other text removes every row of the user for that word |
| ConnectionModel.StoreTranslation | tgbot/connection.py:336-349 | the translation goes in through `add_user_word`, and the count reported is the user's new number of words |
| ConnectionModel.CountReport | tgbot/connection.py:342-349 | one message with the user's number of distinct English words, and none when `get_unique_user_words` has nothing |
| ConnectionModel.DropWord | tgbot/connection.py:351-368 | afterwards the user has no row for the word |
| Connection.Bot.AddRuWordCallback | tgbot/connection.py:310-368 | does what `ConnectionModel.AddRuWordCallback` gives |
| Data.Normalise | data.py:37-45 | a kept row of a verb form has column 1 rewritten to "verb"; no other column and no other row changes |
| Data.NormaliseIdempotent | data.py:37-45 | normalising twice is normalising once when plain "verb" is chosen |
| Data.PosDataOf | data.py:35-52 | raises exactly when some row has no column 1; otherwise the three lists are aligned, the rows are distinct, they are exactly the normalised rows of the chosen parts of speech, and no other verb form is left |
| Data.GetPosData | data.py:35-52 | returns what `Data.PosDataOf` gives and rewrites the input rows in place, up to the row that raises |
| Data.Join | data.py:82-96 | a word gives nothing when no translation row for it has both examples, and raises when one has but no Oxford row is for the word |
| Data.JoinTakesFirstRows | data.py:82-96 | the joined row is the first Oxford row for the word, the Russian word, and the first usable translation row from column 2 on |
| Data.ProcessedRows | data.py:81-96 | the loop raises exactly when one of its words raises |
| Data.Collect | data.py:81-96 | gathering the per-word results raises exactly when one of them raises |
| Data.CollectMembers | data.py:93-96 | every gathered row was joined by one of the steps |
| Data.CollectComplete | data.py:93-96 | every row a step joined is gathered |
| Data.ProcessedRowsMembers | data.py:81-96 | every row of the loop is the joined row of one of the words |
| Data.ProcessedRowsComplete | data.py:81-96 | the joined row of every word is among the rows of the loop |
| Data.JoinWord | data.py:83-96 | computes what `Data.Join` gives for one word |
| Data.GatherRows | data.py:81-96 | computes what `Data.ProcessedRows` gives |
| Data.Dedupe | data.py:98-100 | the result holds no duplicate row, and exactly the rows of its input |
| Data.GetProcessedData | data.py:81-102 | the result holds no duplicate row and exactly the rows of the loop, in an order the model leaves open |
| Data.Mp3Columns | data.py:164-168 | corrected: columns 0, 3 and 5 of every processed row, aligned; a row with fewer than six columns raises |
| Data.Mp3ColumnsAsWritten | data.py:164-168 | as written: on a non-empty list, the columns of every row but the first |
| Data.DownloadSkipsFirstRow | data.py:164 | with a single processed row the loop as written downloads nothing, where the corrected loop fetches that row's recording |
| Data.DownloadColumns | data.py:162-168 | computes what `Data.Mp3Columns` gives |
| Data.EveryProcessedWordDownloaded | data.py:162-173 | with the corrected loop every processed word has its recording fetched |

## Left out

- Engine and session plumbing (`get_engine`, `sessionmaker`, `exists_db`, `create_db`, `exists_tables`, `create_tables`, `form_tables`, `get_table_list`): database I/O; the tables are in-memory state.
- Concurrency: the max-id-plus-one races between processes and the module-level `buttons` shared by all chats are sequential state here; the pending question is keyed by user id, which is the chat id of a private chat.
- The HTTP and HTML work (`get_promt_soup`, `parse_promt`, `receive_oxford_data`, `write_mp3`, and the `data_formation` package): their results are inputs, and the exceptions they can raise are not represented.
- Parsing.GetWordInfo: gives `InfoRaised` only for the PROMT step. Three more exceptions are not represented. `receive_oxford_data` calls `requests.get` outside any try (tgbot/parsing.py:217). `write_mp3` calls `raise_for_status()`, whose HTTPError its except clause does not catch (tgbot/parsing.py:278-284). `parse_promt` reads `.find(...).text` outside any try, so a malformed page raises AttributeError (tgbot/parsing.py:88-91). Each would escape `get_word_info` and end `add_en_word_callback` before `add_user_word`: nothing stored, no reply. `ConnectionModel.AddEnWordCallback` and `ConnectionModel.AddEnWordStores` therefore describe only a lookup where none of these raise.
- File and CSV I/O, `write_processed_data`, `filefinder.py`, and the existence test before `send_audio`: the events name the files instead.
- The Telegram API (`send_message`, `send_audio`, `register_next_step_handler`, the state storage and polling): messages are events. The prompt handlers that only send a question and register the next step (`next_cards`, `delete_word`, `add_word`) are not modelled beyond that.
- `hello_text`: the greeting is the event `Greeting`, without its text.
- `main.py`, the bootstrap.
- Probability: draws and shuffles are supplied sequences.
- Functionality.Lower: `str.lower` is modelled on the Latin and Cyrillic alphabets only; letters of other scripts are left as they are.
- Functionality.RandomWords: the distractor loop of the source can run forever (for instance on four records with one English word); the model stops it as `OutOfDraws` when the supplied draws run out.
- ConnectionModel.CreateCards: requires four shuffle positions, a requirement of the randomness model, not of the source.
- `datetime.now()`: a timestamp parameter; all rows of one bulk insert share it.
- `prepare_words` commits the parts of speech before the batch, so a batch that raises leaves them stored; `CreationModel.PrepareWords` states this.
- A user with no active words cannot add one: `get_unique_user_words` returns `None` and `in None` raises, so the handler stops (`ConnectionModel.AddEnWordCallback`). With the query as written this also happens to a user whose active rows have ids that are no word's id.
- ConnectionModel.Ask: draws with 0-based indexes (the corrected draw); the code as written can raise an IndexError, after which nothing is sent or stored, and never asks about the first record (`Functionality.AsWrittenIndexOutOfRange`).
- ConnectionModel.CreateCards: asks through `ConnectionModel.Ask`, so it runs the corrected draw and not `randint(1, n)`.
- Connection.Bot.Ask: runs the corrected draw, as `ConnectionModel.Ask` does.
- Connection.Bot.CreateCards: runs the corrected draw through `Connection.Bot.Ask`.
- Repository.DBRepository.GetUniqueUserWords: runs the corrected query; the query as written, which takes row ids for word ids, is `RepositoryModel.GetUniqueUserWordsAsWritten`.
- ConnectionModel.DeleteWordCallback: the count after "deleted" comes from the corrected query; as written the query can give `None`, and then `len(None)` raises, or it can give another number.
- Connection.Bot.DeleteWordCallback: reports the count of the corrected query, as `ConnectionModel.DeleteWordCallback` does.
- Connection.Bot.RemoveAndReport: reports the count of the corrected query.
- ConnectionModel.AddEnWordCallback: decides "already exists" and the stop on `None` with the corrected query; as written, the row-id query can miss a word the user has or give `None` for a user who has words.
- ConnectionModel.AddEnKnownWord: the "already exists" reply is proved for the corrected query; the query as written need not list the word.
- ConnectionModel.AddEach: its own ensures do not say what the loop stores, because that induction is too costly inside the function; `ConnectionModel.AddEachStores` and `ConnectionModel.AddEachKeepsHeld` state it beside it.
- ConnectionModel.AddEnWordStores: a record whose part of speech is not in `pos` is silently skipped by `add_word`, and then nothing is linked for it; the lemma assumes the parts of speech are in the table, as the prepared `pos` table has them.
- ConnectionModel.AddNewWord: the count reported comes from the corrected query.
- ConnectionModel.StoreInfo: the count reported comes from the corrected query.
- ConnectionModel.StoreTranslated: the count reported comes from the corrected query.
- ConnectionModel.AddRuWordCallback: the count reported comes from the corrected query.
- ConnectionModel.StoreTranslation: the count reported comes from the corrected query; as written, `len(None)` can raise there.
- ConnectionModel.CountReport: counts the words of the corrected query, not the row-id list of the query as written.
- Connection.Bot.AddEnWordCallback: uses the corrected query, as `ConnectionModel.AddEnWordCallback` does.
- Connection.Bot.AddNewWord: uses the corrected query, as `ConnectionModel.AddNewWord` does.
- Connection.Bot.StoreTranslated: uses the corrected query, as `ConnectionModel.StoreTranslated` does.
- Connection.Bot.AddRuWordCallback: uses the corrected query, as `ConnectionModel.AddRuWordCallback` does.
- The translation step overwrites the word's link and examples with empty strings through the upsert of `add_word`; the model does the same, as it uses the repository model.
- The last active row of `get_user_words` need not be the word just added (table order); the model uses the last row, as the source does.
- An empty message text in the delete flow would deactivate every word of the user; Telegram never delivers an empty text, and `ConnectionModel.DeleteReportsRemoval` assumes a non-empty one.
- After a deletion that leaves the user without active words, the source calls `len(None)` and raises after the "deleted" reply; the model sends that reply and stops (`ConnectionModel.DeleteWordCallback`).
- message_reply keeps the pending question after a right answer; `ConnectionModel.Reply` does the same.
- The `get_word_info` dedupe never fires and the forward pop skips elements; both are stated (`Parsing.MergeKeepsAll`, `Parsing.PopSkipsNext`) and modelled as written, since no input shows a wrong result: PROMT records never carry a link, and the pop only meets the sentinel, which appears alone.
- The recording write and the later read use different names for a blank transcription (`Parsing.Mp3NamesDisagreeOnBlank`); the model keeps both rules as written.
- The `data_formation/english_mp3.py` file-name rule repeats the one of `tgbot/parsing.py` and is not modelled again.

## Findings

| source | as written | input that shows it | evidently intended | confidence | as-written member | corrected member |
|---|---|---|---|---|---|---|
| tgbot/functionality.py:231-240 | indexes drawn with `randint(1, len)` are used as 0-based list indexes | four records and a first draw of 4: `pos_database[4]` raises an IndexError; record 0 is never drawn | draws over `0 .. len - 1` | not executed | Functionality.AsWrittenIndexOutOfRange | Functionality.IntendedDrawsInRange |
| database/repository.py:746-747 | `for _, word in query_result` binds the `UsersWords` row, so pair ids are taken as word ids | a user whose only active row has id 1 and links word 5 ("cat"), with "dog" as word 1: the list is ["dog"] | the ids of the user's words | not executed | RepositoryModel.UniqueUserWordsUsesRowIds | RepositoryModel.GetUniqueUserWords |
| data.py:164 | the loop starts at `processed_data_list[1:]`, but the list has no header row (the header is written to the file separately) | a single processed row: no recording is fetched for it | every processed row | not executed | Data.DownloadSkipsFirstRow | Data.Mp3Columns |

