# Tic-tac-toe engine: board, win detection and memoization table

A Dafny model of the core of a Java tic-tac-toe engine for an
`n x n` board where `lengthToWin` consecutive equal symbols win. The model has three parts:

- `Records` (`Data.dfy`) models `Data`: an immutable pair of a board configuration string and a score.
- `Chaining` (`HashDictionary.dfy`) models `HashDictionary`: a fixed-capacity hash table with separate chaining. It maps configuration strings to scores.
  - The class keeps the bucket array (`array<seq<Data>>`) and the `numRecords` counter.
  - A ghost map `Contents` gives the abstract contents.
  - `Valid()` is the representation invariant:
    - every record sits in the bucket its key hashes to;
    - no key occurs twice;
    - every stored pair is in `Contents`, and every key of `Contents` is stored in its home bucket;
    - `numRecords` equals both the total number of records and the number of keys.
  - The hash function is stated as the loop the source runs. It is seeded with the code of `key[0]` and then folds in every character, `key[0]` included. A lemma relates it to the textbook Horner polynomial of `key[0]` followed by `key`.
- `Grids` (`Grids.dfy`) has boards as values (`seq<seq<char>>`):
  - the row-major configuration string and its inverse;
  - the declarative winning condition `HasRun`: some cell holding the symbol starts `L` cells in one of four directions, all holding it;
  - the lines the engine's scans read;
  - the running counter the scans keep;
  - the lemmas that tie the scans to `HasRun`.
- `TicTacToe` (`Configurations.dfy`) models `Configurations`: a class over an `array2<char>` board.
  - Each method is specified against `Cells()`, the board as a `Grid` value.
  - The four line scans, `Wins`, `IsFull`, `IsDraw` and `EvalBoard` are proved against the declarative definitions.

Behaviour of the source that the model keeps:
- `horzWin` ignores its column argument and `vertWin` ignores its row argument. Each scans its whole row or column.
- The diagonal scans start at the anchor cell and stop counting at the board's edge. `wins` calls them only from cells that hold the symbol.
- With `lengthToWin <= 0` the counter test `symbolSequence >= lengthToWin` of each scan passes at the first cell the scan visits, whatever that cell holds: the counter is then 0 or 1. `wins` starts scans only from cells that hold the symbol, so any symbol that occupies a cell has "won". `HasRun` states this case as the code behaves, and `Grids.DegenerateLengthWinsOnAnyCell` proves it. The case is not excluded by a precondition.
- A duplicate `put` and a `remove` of an absent key throw `DictionaryException`. The model returns the `DictionaryException` case of `Result` and leaves the table unchanged.

## Model

| member | source | states |
|---|---|---|
| Records.Data.GetConfiguration | Data.java:25-27 | the configuration returned, with the record's score, rebuilds the record: it is exactly the stored configuration |
| Records.Data.GetScore | Data.java:34-36 | the score returned, with the record's configuration, rebuilds the record: it is exactly the stored score |
| Records.GettersReturnConstructorArguments | Data.java:15-36 | `getConfiguration` and `getScore` of a new record give back exactly the configuration and score passed to the constructor, whatever the integer score |
| Records.RecordIsItsFields | Data.java:5-36 | a record is nothing but its two fields: two records are equal exactly when their getters agree, so nothing can change one after construction |
| Chaining.HashCode | HashDictionary.java:35-42 | the computed bucket index of a non-empty key always lies in `[0, M)` |
| Chaining.HashAfterIsHorner | HashDictionary.java:36-40 | after `i >= 1` iterations the hash accumulator equals the Horner polynomial (seed 0, base 31, mod M) of the first `i + 1` characters of `key[0]` followed by `key` |
| Chaining.HashIsHornerOfFirstCharDoubled | HashDictionary.java:36-41 | the hash is the base-31 polynomial of the key with its first character counted twice, reduced mod M |
| Chaining.HashDictionary.Hash | HashDictionary.java:35-42 | the hash loop returns the specified bucket index `HashCode(key, M)` |
| Chaining.HashDictionary.constructor | HashDictionary.java:17-25 | a new table has `size` empty buckets, no records, empty contents, and satisfies the representation invariant |
| Chaining.EmptyTableInvariant | HashDictionary.java:17-25 | a table of empty buckets represents the empty map and holds no records |
| Chaining.FoundInBucket | HashDictionary.java:107-110 | in a valid table, any record found in a bucket carries the key and score the abstract map holds for that key |
| Chaining.BucketDecidesMembership | HashDictionary.java:102-112 | in a valid table a key is stored exactly when it occurs in its home bucket, so scanning that one bucket decides membership |
| Chaining.PutPreservesInvariant | HashDictionary.java:52-63 | appending a record with a new key to its home bucket keeps the invariant and represents the old map extended with that key |
| Chaining.TotalRecordsUpdate | HashDictionary.java:62-63 | replacing one bucket changes the total record count by the change in that bucket's length, which is what keeps `numRecords` in step |
| Chaining.HashDictionary.Put | HashDictionary.java:52-71 | a duplicate key throws and changes nothing; otherwise the record is appended to bucket `hash(key)`, every other bucket is unchanged, `numRecords` grows by one, the key maps to the score, and the result is 1 exactly when the bucket was non-empty before and 0 otherwise |
| Chaining.Without | HashDictionary.java:87 | taking out position `i` of a bucket keeps all other records in their order and shortens the bucket by one |
| Chaining.RemoveKeyDeletesFirstMatch | HashDictionary.java:85-89 | removing a key from a bucket deletes exactly its first occurrence, the one the scan stops at |
| Chaining.RemoveKeyAbsent | HashDictionary.java:85-92 | removing a key that does not occur leaves the bucket as it was |
| Chaining.RemovePreservesInvariant | HashDictionary.java:85-89 | deleting a stored record from its bucket keeps the invariant and represents the old map without that key |
| Chaining.HashDictionary.Remove | HashDictionary.java:80-93 | the key's bucket loses its first record with that key, if any, the other records keeping their order; for a present key `numRecords` drops by one and the key leaves the map. An absent key throws and nothing changes |
| Chaining.HashDictionary.Get | HashDictionary.java:102-113 | returns the score stored for the key, or -1 when it is absent; the table is not modified |
| Chaining.HashDictionary.NumRecords | HashDictionary.java:120-122 | the counter equals the number of records in all buckets and the number of distinct keys stored |
| Chaining.PutGetRemove | HashDictionary.java:52-113 | after `put(k, s)` of a new key, `get(k)` returns `s`; after `remove(k)`, `get(k)` returns -1 and the contents and count are back to what they were |
| Chaining.CollidingKeysStayRetrievable | HashDictionary.java:52-71 | two distinct keys with the same bucket in a new table are both retrievable, and the second `put` reports the collision (1) while the first reports none (0) |
| Grids.EmptyGrid | Configurations.java:26-33 | the initial board is square of the given size with every cell free |
| Grids.EncodeLength | Configurations.java:53-57 | the configuration string of a board whose rows have `n` cells has `rows * n` characters |
| Grids.EncodeAt | Configurations.java:53-57 | character `i * n + j` of the configuration string is cell `(i, j)` |
| Grids.DecodeEncode | Configurations.java:53-57 | cutting the configuration string into rows of `n` characters gives back the board |
| Grids.EncodeDecode | Configurations.java:53-57 | every string of `rows * n` characters is the configuration string of exactly the rows cut from it |
| Grids.EncodeInjective | Configurations.java:53-57 | two square boards have the same configuration string exactly when they are the same board, so a key identifies a position |
| Grids.FullIffKeyHasNoBlank | Configurations.java:222-232 | a board is full exactly when its configuration string contains no free-cell character |
| Grids.TrailingRunShape | Configurations.java:113-118 | the running counter equals the length of the block of matching cells that ends the part scanned so far |
| Grids.TrailingRunIsRunEnd | Configurations.java:113-123 | the counter reaches `lengthToWin` exactly when the last `lengthToWin` scanned cells all hold the symbol |
| Grids.ScanStep | Configurations.java:113-123 | one more scanned cell creates a run exactly when the counter has just reached `lengthToWin` or the earlier cells already held one |
| Grids.ScanAdvance | Configurations.java:113-123 | one counter update: if the counter reaches `lengthToWin` the line has a run; otherwise the scan state holds one cell further |
| Grids.ScanDone | Configurations.java:113-126 | a scan that passes the end of the line without the counter reaching `lengthToWin` has shown that no run lies on the line |
| Grids.DownRightStep | Configurations.java:166-171 | step `k` of the down-right scan passes the bounds test exactly when it is a position of the scanned diagonal, and it reads that cell |
| Grids.DownLeftStep | Configurations.java:197-202 | step `k` of the down-left scan passes the bounds test exactly when it is a position of the scanned diagonal, and it reads that cell |
| Grids.LineRunIsRun | Configurations.java:244-248 | a run found by any of the four scans from a cell holding the symbol is a winning line of the board |
| Grids.RunIsLineRun | Configurations.java:244-248 | every winning line from a cell in some direction is found by the scan from that cell in that direction |
| Grids.WinIffSomeAnchor | Configurations.java:239-255 | a symbol has a winning line exactly when some cell holds it and one of the four scans from that cell finds a run |
| Grids.NoRunLongerThanBoard | Configurations.java:110-215 | when `lengthToWin` exceeds the board size, no symbol has a winning line |
| Grids.DegenerateLengthWinsOnAnyCell | Configurations.java:239-255 | with `lengthToWin <= 0`, a symbol has won exactly when it occupies some cell |
| Grids.PlayKeepsRun | Configurations.java:85-87 | writing into a free cell never takes a winning line away from a non-free symbol |
| Grids.PlaceFillsOneCell | Configurations.java:85-87 | after a play the board is full exactly when the symbol written is not the free-cell character and every other cell was taken |
| Grids.EmptyBoardUndecided | Configurations.java:22-34 | the initial board of positive size is not full and no player symbol has a winning line on it |
| Grids.TopRowWins | Configurations.java:239-255 | on a 3 x 3 board with a top row of three X and two O in the middle row, X has a line of three and O has none |
| Grids.TopRowOfFreeBoard | Configurations.java:239-255 | after writing one symbol into the whole top row of a free 3 x 3 board, that symbol has a line of three and no other non-free symbol has one |
| TicTacToe.Configurations.constructor | Configurations.java:22-34 | stores the three parameters and makes a fresh `boardSize x boardSize` board with every cell free |
| TicTacToe.Configurations.CreateDictionary | Configurations.java:41-43 | returns a new, valid, empty table of 7971 buckets |
| TicTacToe.Configurations.SavePlay | Configurations.java:85-87 | cell `(row, col)` takes the symbol, whatever it held, and every other cell keeps its value |
| TicTacToe.Configurations.SquareIsEmpty | Configurations.java:95-101 | true exactly when the cell holds the free-cell character; then the board is not full |
| TicTacToe.Configurations.BoardKey | Configurations.java:51-57 | the string built cell by cell is the row-major configuration string of the board, of length `boardSize * boardSize` |
| TicTacToe.Configurations.RepeatedConfiguration | Configurations.java:50-60 | returns the score stored under the board's configuration string, or -1 when it is not stored |
| TicTacToe.Configurations.AddConfiguration | Configurations.java:67-77 | stores the score under the board's configuration string and counts one more record; a position already stored throws and the table is unchanged |
| TicTacToe.Configurations.HorzWin | Configurations.java:110-127 | true exactly when row `row` holds `lengthToWin` consecutive copies of the symbol; the column argument plays no part |
| TicTacToe.Configurations.VertWin | Configurations.java:137-153 | true exactly when column `col` holds `lengthToWin` consecutive copies of the symbol; the row argument plays no part |
| TicTacToe.Configurations.DiagRightWin | Configurations.java:162-184 | true exactly when the cells from `(row, col)` towards the lower right, up to the edge, hold `lengthToWin` consecutive copies of the symbol |
| TicTacToe.Configurations.DiagLeftWin | Configurations.java:194-215 | true exactly when the cells from `(row, col)` towards the lower left, up to the edge, hold `lengthToWin` consecutive copies of the symbol |
| TicTacToe.Configurations.Wins | Configurations.java:239-255 | true exactly when the symbol has `lengthToWin` consecutive cells across, down or along either diagonal, for every `lengthToWin` |
| TicTacToe.Configurations.IsFull | Configurations.java:222-232 | true exactly when no cell is free |
| TicTacToe.Configurations.IsDraw | Configurations.java:261-263 | true exactly when neither X nor O has a winning line and the board is full |
| TicTacToe.Configurations.EvalBoard | Configurations.java:269-280 | the score is one of 0..3: 3 exactly when O has won; 0 exactly when O has not and X has; 2 exactly when neither has won and the board is full; 1 otherwise |
| TicTacToe.StoreThenRecall | Configurations.java:50-77 | storing a score for a position not in the table, then looking the position up, gives that score back |
| TicTacToe.TopRowGame | Configurations.java:239-280 | on a new 3 x 3 board with lines of three, filling the top row with one player's symbol makes that player win, the other not win, and the evaluation return 3 for O and 0 for X |
| TicTacToe.NewBoardIsUndecided | Configurations.java:269-280 | the evaluation of a new board of positive size is 1, undecided, whatever the win length |

## Left out

- Chaining.HashDictionary.Hash: Java's 32-bit `int` arithmetic is not modelled. The accumulator is an unbounded integer. With the engine's 7971 buckets and 16-bit characters, `val * 31 + c` stays far below 2^31, so nothing overflows. With a table of more than about 69 million buckets Java's value would wrap and differ from the model's.
- Chaining.HashDictionary.Hash: Java's `(int) key.charAt(i)` is a UTF-16 code unit, while a Dafny `char` is a Unicode scalar value. The two agree on the board symbols and on every character of the Basic Multilingual Plane.
- Chaining.HashDictionary.Put: requires a non-empty key and at least one bucket. In Java an empty key makes `charAt(0)` throw and zero buckets make `% M` throw; those runtime exceptions are not modelled. `Get`, `Remove` and `Hash` carry the same requirement for the same reason.
- TicTacToe.Configurations.RepeatedConfiguration: requires a board of positive size, since the empty board's key is the empty string and hashing it throws in Java. `AddConfiguration` requires the same.
- TicTacToe.Configurations.SavePlay: requires the cell to be on the board. Java would throw an index exception otherwise. `SquareIsEmpty` requires the same for the same reason.
- TicTacToe.Configurations.HorzWin: requires its anchor `(row, col)` to be on the board. The four line scans are private and are called only from `wins`, with anchors taken from its loops over the board, so the requirement holds at every call. Called directly, the Java scans would behave differently off the board. `horzWin` never reads `col`, and `vertWin` never reads `row`. `diagRightWin` returns false for an anchor past the bottom or right edge, because every step fails its bounds test (Configurations.java:170). `diagLeftWin` returns false for an anchor past the bottom or left edge. For an anchor on a row of the board but past its right edge, its bounds test passes at the first step and the cell read throws (Configurations.java:201-202). `VertWin`, `DiagRightWin` and `DiagLeftWin` carry the same requirement.
- TicTacToe.Configurations.constructor: takes the board size as a natural number. Java's `NegativeArraySizeException` for a negative size is not modelled. `Chaining.HashDictionary.constructor` takes its size the same way.
- The board `char[][]` is an `array2<char>`. Java's separately allocated rows could in principle be shared between boards; the engine never does that.
- Each `LinkedList<Data>` bucket is a `seq<Data>` held in the bucket array, which `put` and `remove` update in place.
- `DictionaryADT` and `DictionaryException` are not part of this model. The exception is the `DictionaryException` case of `Result`.
- `addConfiguration` is `void` in Java and lets `put`'s exception propagate. `AddConfiguration` returns that outcome as a `Result`, dropping `put`'s collision indicator as Java does.
- The row-major key is built by the same two loops in `repeatedConfiguration` and `addConfiguration`. Here both call one method, `BoardKey`.
- `maxLevels` is stored by the constructor but no operation reads it. The game-tree search that would use it is not part of this model.
- The comment on `createDictionary` calls 7971 prime, but it is 3 x 2657. Nothing in the model depends on the table size beyond its being positive.
- Null references (a null configuration string or table) are not modelled: Dafny references here are never null.
- No restriction is put on the symbols written to the board: `savePlay` accepts any character, as in Java.
