# countTiles in Dafny

countTiles answers one question about a single suit of mahjong tiles. Take every
hand of thirteen tiles with values 1 to 9 and at most four copies of each value.
For each hand, list every tile that completes it, and every way the fourteen
tiles then split into one pair and four triples (three equal tiles) or runs
(three consecutive tiles). Each answer line shows the closed groups in round
brackets and the group the winning tile went into in square brackets, without
that tile: `(111)(234)(567)(99)[8]`.

This project models the portable C++ engine of countTiles.cpp and proves what
it promises:

- `tiles.dfy` (module `Tiles`): count tables indexed by tile value, the three
  kinds of group, and taking a group out of a table.
- `tile_sets.dfy` (module `TileSets`): the digit codec, the base-11 group keys
  padded with the special value 10, the open-key offset, and what a pair or a
  three-tile group answers for its key, membership and text. This includes the
  per-tile attribute table of a three-tile group, both as the source indexes it
  and as intended.
- `count_tiles_search.dfy` (module `CountTilesSearch`): `FindMinTile`, the
  mutable count table `KeyTileSetTable`, and the reference search `Explore`.
  It proves that the search yields exactly the splits of the table into groups
  with non-decreasing start tiles: sound, and complete up to the order of the
  groups.
- `count_tiles_render.dfy` (module `CountTilesRender`): the deduplicating
  rendering of a split. The group keys are sorted by descending key and packed
  in base 4096 into one composite key. A line is written only when its
  composite key is new for the hand. The composite key determines the line.
- `count_tiles_engine.dfy` (module `CountTilesEngine`): the backtracking state
  machine `TilesWithPair`, a class over an array of five slots. `SearchNext`
  tries a triple at most once and then a run at most once per depth, and
  `Revert` undoes the last group. `ToString` is proved against the rendering
  function.
- `count_tiles_full_set.dfy` (module `CountTilesFullSet`): `TileFullSet`, with
  the line constructor, the search driver and `SearchAll`. `SearchAll` is
  proved to return exactly the rendering of every winning tile, every pair and
  every completion, and to leave the count table empty.
- `hands.dfy` (module `Hands`) and `count_tiles_all.dfy` (module
  `CountTilesAll`): the walk over all hands. It yields every valid 13-tile
  hand exactly once, in strictly increasing lexicographic order, 93600 hands,
  starting from 1111222233334. The imperative walk `AllTileSet::enumerate`
  writes exactly the blocks of those hands, in that order.

The counts of the source's `std::unordered_map<TileType, TileSize>` become a
sequence of ten naturals indexed by tile value. Index 0 holds the digit '0',
which the line constructor counts like any other digit. Keys are unbounded
naturals. Every key the engine builds is proved to stay below 4096 per group,
so the five-group composite key fits in the source's 64-bit `TileSetKey`
without wrap-around.

It also models the bit-parallel engine of countTilesBitsSolver.cpp and
countTilesBitsMain.cpp, which answers the same question for the same 93600
hands with 64-bit tile maps and x86 bit instructions:

- `bits_tile_map.dfy` (module `BitsTileMap`): a `TileMap` as ten 5-bit fields
  holding each count in unary. It covers the masks the search shifts along
  the map, `splitWithMask`, and adding and removing one tile. Each is proved
  against the count tables of `Tiles`.
- `bits_key.dfy` (module `BitsKey`): the 10-bit key of one group (open bit,
  5-bit pattern, 4-bit position) and the 50-bit key of a full set. The
  closed keys are sorted descending by the inline insertion sort, and the
  open key is placed first. Group keys are injective, and two full sets have
  the same key exactly when they have the same open key and the same closed
  keys.
- `bits_print.dfy` (module `BitsPrint`): `tileMapToString` with its pattern
  and base tables, and `TileFullSet::Print`. The text of a group's key is
  "(" or "[", its tiles in digits, then ")" or "]".
- `bits_search.dfy` (module `BitsSearch`): the search with the `noTriple`
  pruning is proved to find the same splits as the search without it. Those
  splits are sound, and complete up to the order of the groups.
- `bits_solver.dfy` (module `BitsSolver`): `Solution`, `Answers` (the keys
  and lines found so far, with no key repeated), `splitTileMap`,
  `findWithExtra`, `findAll` and `Puzzle::Find`. Each is proved to compute
  its specification function.
- `bits_waits.dfy` (module `BitsWaits`): the keys `Puzzle::Find` prints for
  a 13-tile hand are exactly those of its waiting forms. A waiting form is a
  winning tile the hand holds fewer than four of, a pair, four more groups
  using every tile, and one group holding the winning tile. A hand with no
  waiting form prints "(none)".
- `bits_enumerate.dfy` (module `BitsEnumerate`): `enumerateOne` on the
  packed nibbles of a hand, and `EnumerateAll`. The next hand is the least
  hand above the current one. The walk from 0x11112222333340 is exactly the
  list of all hands, and each worker writes every stepSize-th block from its
  offset on.
- `bits_options.dfy` (module `BitsOptions`) and `bits_main.dfy` (module
  `BitsMain`): the thread count read from "-N", and `SolveAll`. `SolveAll`
  either runs one worker or merges the workers' results round by round, and
  writes every block in order whatever the thread count.

The Ruby version, countTiles.rb, searches the 14-tile hands as strings:

- `text.dfy` (module `Text`): digits, white space, byte-wise string order,
  sorting, `uniq` and `join`, shared by the Ruby modules.
- `ruby_tile_set.dfy` (module `RubyTileSet`): `TileSet.new`, which reads the
  first word of a line, sorts it and keeps the digits 1 to 9, and
  `TooManyTilesForKind`.
- `ruby_search.dfy`, `ruby_candidates.dfy` (modules `RubySearch` and
  `RubyCandidates`): `searchFlush`, `searchTileSequence` with its
  `delete_at(position - index)` loop, and the recursive `search`. The
  candidates of a 14-tile hand are proved to be exactly its winning splits,
  up to order.
- `ruby_mark.dfy` (module `RubyMark`): `markExtraTile`, with the scan of the
  parts, `sub` and `tr`.
- `ruby_search_all.dfy` (module `RubySearchAll`): `searchAll`. Its lines are
  exactly those of the winning splits with one group holding the winning
  tile. The lines are sorted and unique, and the output is "(none)" when
  there is no such split.
- `ruby_check.dfy` (module `RubyCheck`): `checkTiles`. It accepts what
  `searchAll` prints for any 13 tiles, for a winning hand with one tile
  removed, and for every hand of the exhaustive walk.
- `ruby_walk.dfy` (module `RubyWalk`): `checkAllPattern`, `enumerateTiles`
  and `checkPattern`. The recursive walk with its `downto` loop prints, for
  every hand of `Hands.AllHands` in order, the hand's digits, a colon and a
  line feed, then what `searchAll` returns. That text is the Ruby log the
  comparison script reads.

countTilesCompareLog.rb checks that the three programs print the same
answers. `compare_log.dfy` (module `CompareLog`) models its `TileSet` and
`LogFile` classes as classes. A line is normalised by sorting its
`/\W\w+\W/` tokens, and the lines of a block are sorted. The comparison
accepts the logs exactly when there are at least two, the first has 93600
blocks (one per hand), and every log equals the first.

## Model

| member | source | states |
|---|---|---|
| TileSets.ConvertToTileType | countTiles.cpp:88-90 | the value is in 0..9, and nonzero exactly for the characters '1'..'9' |
| TileSets.ConvertToChar | countTiles.cpp:92-94 | the character is '.' exactly when the value is not a tile 1..9 |
| TileSets.TileCharRoundTrip | countTiles.cpp:88-94 | converting a tile to its digit and back gives the tile; a digit '1'..'9' to its value and back gives the digit |
| TileSets.Padded | countTiles.cpp:130-139 | a group of fewer than three tiles is padded with TileSpecial (10) up to three digits, its own tiles first |
| TileSets.CalculateKey | countTiles.cpp:114-139 | closed keys lie below 11^3 = 1331; open keys lie from RadixOfThreeTilesOpen (1332) to below 2 * 1332, which is below the packing radix 4096 |
| TileSets.KeyRoundTrip | countTiles.cpp:114-139 | a key decodes back to its open flag and its padded base-11 digits |
| TileSets.KeyInjective | countTiles.cpp:114-139 | equal keys come from the same tiles with the same open flag |
| TileSets.OpenTilesBag | countTiles.cpp:329-358 | the open form of a group is the group minus one copy of the winning tile |
| TileSets.RegisteredAt | countTiles.cpp:329-358 | after registration, the slot of each tile of a triple or run holds the open key and the "[..]" text of the other two tiles |
| TileSets.AsWrittenOutOfRange | countTiles.cpp:337-370 | counting each tile in the slot of its raw value overruns the nine-slot table exactly for the groups that hold a 9 |
| TileSets.TripleNineOutOfRange | countTiles.cpp:310-370 | the triple 999 counts into slot 9 of a nine-slot table, and its HasTile(9) reads past the end |
| TileSets.HasTileAsWrittenBelowNine | countTiles.cpp:310-349 | for groups and tiles without a 9, the raw-index reading agrees with membership |
| TileSets.HasTileIsMember | countTiles.cpp:310-312 | HasTile(t) holds exactly when t is one of the group's tiles, for pairs and for three-tile groups |
| TileSets.AttributesKeepRegistered | countTiles.cpp:337-358 | counting tiles changes no registered open key and no open text |
| TileSets.OpenAttributes | countTiles.cpp:306-317 | the open key and text a group gives for the winning tile are those of its tiles minus one copy of that tile |
| TileSets.KeyRange | countTiles.cpp:58-69 | a closed group key is below 1331; an open one lies from 1332 to below 2664 |
| TileSets.KeyOrder | countTiles.cpp:133-139 | a triple or run has a smaller closed key than any pair, and every closed key is smaller than every open key |
| TileSets.ClosedKeyInjective | countTiles.cpp:293-304 | equal closed keys mean the same group, so the catalog holds one entry per group |
| TileSets.KeyDeterminesString | countTiles.cpp:306-317 | two groups with the same key, open or closed, print the same text |
| Tiles.TakeFacts | countTiles.cpp:195-198 | taking a group out of a count table removes exactly its tiles from the table's multiset and lowers the total by the group's size |
| Tiles.TotalZero | countTiles.cpp:177-180 | a table with no tile left is all zeros |
| CountTilesSearch.FirstHeld | countTiles.cpp:141-149 | the result, when present, is the least tile from `from` up to 9 with a nonzero count; when absent, no such tile exists |
| CountTilesSearch.FindMinTile | countTiles.cpp:141-149 | the scan returns the least tile t >= head with a nonzero count, or head itself when there is none |
| CountTilesSearch.KeyTileSetTable.constructor | countTiles.cpp:164-171 | the table starts with every count at zero |
| CountTilesSearch.KeyTileSetTable.Reset | countTiles.cpp:177-180 | every count is zero again |
| CountTilesSearch.KeyTileSetTable.AddTiles | countTiles.cpp:183-186 | only the count of the tile grows, by n |
| CountTilesSearch.KeyTileSetTable.PushTiles | countTiles.cpp:189-192 | only the count of the tile grows, by n |
| CountTilesSearch.KeyTileSetTable.PopTiles | countTiles.cpp:195-198 | only the count of the tile shrinks, by n; callers never take more than there are |
| CountTilesSearch.KeyTileSetTable.GetRemainingSize | countTiles.cpp:201-203 | the count of the tile |
| CountTilesSearch.KeyTileSetTable.GetMinTile | countTiles.cpp:206-208 | FindMinTile on the current counts |
| CountTilesSearch.FirstTriple | countTiles.cpp:404-421 | the least tile from minTile_ up to 9 with at least three copies, or none when no tile has three |
| CountTilesSearch.FirstRun | countTiles.cpp:425-446 | the least tile from minTile_ up to 7 that starts a run of three held tiles, or none when there is no such run |
| CountTilesSearch.ExploreSound | countTiles.cpp:403-478 | every completion the search reaches is k valid groups with non-decreasing start tiles from m on; together they use tiles of the table, and all of them when the table holds 3k tiles |
| CountTilesSearch.ExploreComplete | countTiles.cpp:403-478 | every split of the table into k triples and runs is reached, up to the order of its groups |
| CountTilesEngine.StrTable.constructor | countTiles.cpp:637-639 | the per-hand table of written lines starts empty |
| CountTilesEngine.NextMove | countTiles.cpp:451-470 | a move that pushes a group strictly advances the status of its depth, so each depth tries a triple at most once and then a run at most once |
| CountTilesEngine.MoveAdvances | countTiles.cpp:451-470 | a pushed group is valid, is held by the table and starts at a tile no lower than minTile_ |
| CountTilesEngine.PartialStep | countTiles.cpp:619-632 | each pushed group adds exactly the rendering of every completion after it to what the depth has rendered |
| CountTilesEngine.PartialEnd | countTiles.cpp:627-632 | once no group is pushed, the depth has rendered every completion |
| CountTilesEngine.OutcomeComplete | countTiles.cpp:621-624 | a full stack renders just its own split |
| CountTilesEngine.ReturnToTable | countTiles.cpp:320-325 | pushing the three tiles back one at a time undoes taking the group out |
| CountTilesEngine.TakeOut | countTiles.cpp:404-446 | a triple's tiles come out at once and a run's one at a time; either way the table loses exactly the group |
| CountTilesEngine.TilesWithPair.constructor | countTiles.cpp:380-386 | slot 0 holds the pair, NOT_SEARCHED, and the least tile held before the pair is taken; the table loses the pair |
| CountTilesEngine.TilesWithPair.Release | countTiles.cpp:388-391 | the pair's two tiles go back, undoing the constructor |
| CountTilesEngine.TilesWithPair.Push | countTiles.cpp:411-440 | one slot is added with the new group, NOT_SEARCHED and its start tile as minTile_; the lower slots are unchanged; the table loses the group |
| CountTilesEngine.TilesWithPair.SearchTriple | countTiles.cpp:404-421 | pushes the triple of the least tile from minTile_ with three copies, or changes nothing and returns false when there is none |
| CountTilesEngine.TilesWithPair.SearchSequenceThree | countTiles.cpp:425-446 | pushes the run starting at the least tile from minTile_ up to 7 whose run is held, or changes nothing and returns false when there is none |
| CountTilesEngine.TilesWithPair.FindRun | countTiles.cpp:428-430 | the scan for a run finds the least tile from minTile_ on that starts a run of three held tiles, or none when no tile up to 7 does |
| CountTilesEngine.TilesWithPair.SearchNext | countTiles.cpp:451-470 | returns false with nothing changed once four groups are found; otherwise does NextMove: the new status of the depth, and the group pushed if any |
| CountTilesEngine.TilesWithPair.Revert | countTiles.cpp:473-478 | drops the top group and restores the table to what it was before that group was taken |
| CountTilesEngine.TilesWithPair.ToString | countTiles.cpp:481-532 | the text is the rendering of the stack against the hand's table of written lines, and the table becomes the rendering's table |
| CountTilesEngine.TilesWithPair.RenderSlot | countTiles.cpp:491-528 | one turn of the loop: slot i's line is appended and recorded exactly when the slot holds the winning tile and its packed key is not yet in the hand's table; what is written so far plus the rendering from slot i + 1 stays the rendering from slot i |
| CountTilesEngine.TilesWithPair.SortedEntries | countTiles.cpp:496-503 | the entries of all slots, slot i open, sorted by descending key |
| CountTilesEngine.FillEntries | countTiles.cpp:496-500 | entry j holds slot j's index, its group and its key, the key open exactly for slot i |
| CountTilesEngine.PackKeys | countTiles.cpp:504-507 | the composite key is the keys read as base-4096 digits, the first most significant |
| CountTilesEngine.LineString | countTiles.cpp:513-520 | the line is the groups' texts from the last sorted entry to the first, the entry of slot i open |
| CountTilesRender.SortDescFacts | countTiles.cpp:502-503 | the stand-in sort orders by descending key and is a permutation of its input |
| CountTilesRender.PackRoundTrip | countTiles.cpp:504-507 | keys below 4096 are recovered from their composite key, so no two key lists collide |
| CountTilesRender.SortChoiceIrrelevant | countTiles.cpp:502-520 | any descending sort of the entries, however it orders equal keys, gives the same composite key and the same line as the stand-in sort |
| CountTilesRender.SortedFirstIsOpen | countTiles.cpp:496-503 | the open group has the largest key, so it is first after sorting |
| CountTilesRender.LineEndsWithOpen | countTiles.cpp:513-520 | a line shows the closed groups in ascending key order and ends with the open group in square brackets |
| CountTilesRender.KeyDeterminesLine | countTiles.cpp:504-522 | two renderable splits with the same composite key print the same line, so skipping a known key loses no line |
| CountTilesRender.RenderExtends | countTiles.cpp:509-528 | rendering only adds keys to the table, exactly one new key per line written |
| CountTilesRender.RenderCoherent | countTiles.cpp:509-525 | every key in the table stands for the line of any split with that key |
| CountTilesRender.RenderCovers | countTiles.cpp:490-529 | after rendering, every group holding the winning tile has its composite key in the table |
| CountTilesRender.RenderLeavesAppend | countTiles.cpp:619-632 | rendering two lists of completions in turn is rendering their concatenation |
| CountTilesFullSet.PairsNext | countTiles.cpp:605-611 | a pair tile with fewer than two copies adds nothing; otherwise the lines of that pair's search come before those of the later pairs |
| CountTilesFullSet.ExtrasNext | countTiles.cpp:598-613 | a winning tile the hand already holds four of adds nothing; otherwise the lines of that tile come before those of the later tiles |
| CountTilesFullSet.Digits | countTiles.cpp:562-575 | the leading digits of the text, ending at its first non-digit |
| CountTilesFullSet.HandDigitsIgnoreTail | countTiles.cpp:562-575 | a hand after non-digits and before a separator reads as the hand alone, whatever follows |
| CountTilesFullSet.LineCountsDiffer | countTiles.cpp:557-575 | on "1112345678999 1" the loop as written counts four 1s where the hand holds three |
| CountTilesFullSet.AsWrittenCountsTail | countTiles.cpp:557-575 | as written, every digit of the line counts, including those after the hand |
| CountTilesFullSet.ReadHand | countTiles.cpp:560-575 | the counts are those of the digits of the first run of digits in the line: non-digits before it are skipped and the first non-digit after it ends the reading |
| CountTilesFullSet.TileFullSet.FromLine | countTiles.cpp:557-579 | the initial counts are those of the first run of digits in the line; the count table is empty |
| CountTilesFullSet.TileFullSet.FromCounts | countTiles.cpp:581-584 | the initial counts are the given table; the count table is empty |
| CountTilesFullSet.TileFullSet.SearchAll | countTiles.cpp:591-616 | the text is the rendering of every winning tile, every pair and every completion, in loop order; the line table is the rendering's; the count table ends empty |
| CountTilesFullSet.TileFullSet.Fill | countTiles.cpp:593-595 | the count table holds the initial counts |
| CountTilesFullSet.TileFullSet.TryExtra | countTiles.cpp:600-612 | adding the winning tile, trying every pair and taking the tile out leaves the table as it was and writes that tile's lines |
| CountTilesFullSet.TileFullSet.SearchPairs | countTiles.cpp:605-611 | every pair tile with two copies is tried in turn, and the text is PairsFrom's |
| CountTilesFullSet.TileFullSet.TryPair | countTiles.cpp:607-609 | a search with that pair writes the pair's outcome and gives the pair back |
| CountTilesFullSet.TileFullSet.Search | countTiles.cpp:619-632 | the text is the rendering of every completion of the stack; the stack and the table are left as they were found |
| CountTilesFullSet.TileFullSet.SearchMoves | countTiles.cpp:627-631 | the loop renders every completion reached by the moves of the top depth |
| CountTilesFullSet.TileFullSet.Turn | countTiles.cpp:627-631 | one turn of the loop: a move, and when it pushes a group, the rendering of that group's completions |
| CountTilesFullSet.TileFullSet.Descend | countTiles.cpp:628-629 | the recursive search below a pushed group, then Revert |
| Hands.EnumerateSound | countTiles.cpp:703-725 | every hand the walk yields is sorted, has the requested size and holds at most four copies of a value |
| Hands.EnumerateComplete | countTiles.cpp:703-725 | every such hand is yielded |
| Hands.AllHandsExactly | countTiles.cpp:674-677 | the walk from 1 with 13 tiles yields exactly the valid 13-tile hands |
| Hands.EnumerateIncreasing | countTiles.cpp:713-724 | the hands come in strictly increasing lexicographic order |
| Hands.AllHandsDistinct | countTiles.cpp:674-677 | no hand is visited twice |
| Hands.FirstHand | countTiles.cpp:713-724 | the first hand visited is 1111222233334 |
| Hands.EnumerateCount | countTiles.cpp:703-725 | the walk yields Count(head, remaining) hands |
| Hands.AllHandsCount | countTiles.cpp:674-677 | the walk visits 93600 hands |
| CountTilesAll.PrefixedEmpty | countTiles.cpp:674-677 | the hands of the walk with nothing in front are the hands themselves |
| CountTilesAll.LowerNext | countTiles.cpp:713-724 | the blocks for fewer than i + 1 copies of head are those for exactly i copies, then those for fewer |
| CountTilesAll.EnumerateCases | countTiles.cpp:703-712 | a full hand gives its own block; no value left gives nothing; otherwise the choices for head |
| CountTilesAll.HandCountsAppend | countTiles.cpp:716 | setting the count of head to i is counting i more copies of head |
| CountTilesAll.AppendCopies | countTiles.cpp:719-721 | the hand text gets i copies of the digit of head |
| CountTilesAll.SearchHand | countTiles.cpp:731-739 | the block is the hand, ":", a line feed, then the hand's answer, or "(none)" and a line feed when it has none |
| CountTilesAll.EnumerateFrom | countTiles.cpp:703-726 | the output is the blocks of every hand that starts with the prefix and has `remaining` more tiles from head on, in walk order; the count table is given back unchanged |
| CountTilesAll.EnumerateChoices | countTiles.cpp:714-724 | the counts of head from min(remaining, 4) down to 0 are tried in turn |
| CountTilesAll.ChoiceStep | countTiles.cpp:715-723 | one turn of the do-while loop appends the blocks of the hands with exactly i copies of head |
| CountTilesAll.SetCount | countTiles.cpp:716 | only the count of the one tile value changes, to the given number |
| CountTilesAll.EnumerateCopies | countTiles.cpp:716-722 | one count of head: the table and text are extended, the walk goes on from head + 1, and the count goes back to 0 |
| CountTilesAll.EnumerateAll | countTiles.cpp:674-677 | the output is the blocks of every hand of the walk from 1 with 13 tiles, in order |
| BitsTileMap.CountOf | countTilesBits.hpp:17-18 | a 5-bit field holding a count in unary reads as at most five tiles |
| BitsTileMap.UnaryCount | countTilesBits.hpp:17-18 | a count up to four written in unary reads back as that count |
| BitsTileMap.CountUnary | countTilesBits.hpp:17-18 | a unary field reads as a count up to four and is that count's unary form |
| BitsTileMap.MapCountsRoundTrip | countTilesBits.hpp:9-20 | a well-formed tile map and a count table with at most four of each tile convert into each other and back unchanged |
| BitsTileMap.MaskFields | countTilesBitsSolver.cpp:444-449 | the run masks 0x421, 0x3def and 0x7bde are the fields 1, 15 and 30 at three consecutive tiles; 0x427 is 7, 1, 1 |
| BitsTileMap.FifthCopyMask | countTilesBitsSolver.cpp:364 | mask5th is the fifth-copy bit of every tile 1..9 |
| BitsTileMap.AddTile | countTilesBitsSolver.cpp:373-390 | adding the winning tile gives 0 exactly when the hand already holds four; otherwise the counts gain one copy of it |
| BitsTileMap.AddTileFacts | countTilesBitsSolver.cpp:375-388 | the shifted field has a fifth copy exactly when it held four; otherwise the map stays well formed with one more copy |
| BitsTileMap.GroupMapCounts | countTilesBitsSolver.cpp:443-495 | the tile map of a group holds exactly the group's tiles |
| BitsTileMap.StripPair | countTilesBitsSolver.cpp:411-432 | the pair of tile i comes out exactly when the hand holds two copies; the rest is the table without the pair |
| BitsTileMap.SplitWithMask | countTilesBitsSolver.cpp:501-532 | finds the lowest triple or run of the pattern; it comes out and the rest is the table without it, or nothing comes out and the map is unchanged when there is none |
| BitsTileMap.SplitFromSpec | countTilesBitsSolver.cpp:501-532 | the scan from position pos finds the lowest group of the pattern from pos on, or none |
| BitsTileMap.MatchesCounts | countTilesBitsSolver.cpp:444-449 | the triple masks match exactly where three copies are held; the run masks exactly where a run starts |
| BitsTileMap.LoweredCounts | countTilesBitsSolver.cpp:501-532 | removing a matched mask leaves the table without that group |
| BitsTileMap.RemoveOneCounts | countTilesBitsSolver.cpp:186-201 | the removal of extra changes the map exactly when it holds extra, and then takes one copy out |
| BitsTileMap.LowestTile | countTilesBitsSolver.cpp:48 | tzcnt finds the lowest nonempty field of a nonzero map |
| BitsTileMap.GroupKey | countTilesBitsSolver.cpp:32-64 | a group key is below 1024, and at least OpenKey exactly for an open group |
| BitsTileMap.KeyRoundTrip | countTilesBitsSolver.cpp:32-64 | the group a key was made from is recovered from the key |
| BitsTileMap.KeyInjective | countTilesBitsSolver.cpp:32-64 | two groups with the same key are the same group with the same open flag |
| BitsTileMap.KeyFields | countTilesBits.hpp:21-22 | the open bit, the pattern and the position sit in separate fields of the 10-bit key |
| BitsTileMap.ClosedCompact | countTilesBitsSolver.cpp:46-52 | the tiles of a pair, triple or run fit the 0x427 window at their lowest tile |
| BitsTileMap.OpenCompact | countTilesBitsSolver.cpp:46-52 | a group with one tile removed still fits the window |
| BitsKey.SortFacts | countTilesBitsSolver.cpp:239-285 | the insertion sort orders the keys descending and is a permutation of them |
| BitsKey.DescendingUnique | countTilesBitsSolver.cpp:239-285 | two descending orders of the same keys are the same sequence |
| BitsKey.ClosedKeysHas | countTilesBitsSolver.cpp:230-237 | the key of every slot whose key lacks the open bit goes to the sort |
| BitsKey.ClosedKeysFrom | countTilesBitsSolver.cpp:230-237 | every key that goes to the sort is the key of a closed slot |
| BitsKey.PackInjective | countTilesBitsSolver.cpp:289-298 | keys below 1024 are recovered from their packed value |
| BitsKey.FullKeyEqual | countTilesBitsSolver.cpp:222-299 | two full sets have the same key exactly when their open keys are equal and their closed keys are the same multiset |
| BitsKey.GetKey | countTilesBitsSolver.cpp:222-299 | the key is the open key, then the four closed keys in descending order, packed 10 bits each |
| BitsKey.InsertSlot | countTilesBitsSolver.cpp:239-285 | one step of the insertion sort puts the new key into place in the descending slots |
| BitsPrint.Print | countTilesBitsSolver.cpp:301-315 | the line is the text of each of the five 10-bit slots of the key, then a line feed |
| BitsPrint.AppendSlots | countTilesBitsSolver.cpp:305-310 | the slots are written one after the other from the top of the key |
| BitsPrint.BaseOf | countTilesBitsSolver.cpp:100-101 | the base table at position (5t)/4 is the digit of t minus one |
| BitsPrint.GlyphsOf | countTilesBitsSolver.cpp:90-99 | the pattern table writes the digits of the group's tiles for each pattern a pair, triple, run or waiting form takes |
| BitsPrint.ClosedSlot | countTilesBitsSolver.cpp:66-161 | a closed group prints as its digits in round brackets |
| BitsPrint.OpenSlot | countTilesBitsSolver.cpp:66-161 | an open group prints as its remaining digits in square brackets |
| BitsSearch.PruneSound | countTilesBitsSolver.cpp:443-495 | skipping triples once a depth found none loses no split: the pruned search finds exactly the splits of the unpruned one |
| BitsSearch.AllSound | countTilesBitsSolver.cpp:443-495 | every split found is k valid triples or runs with non-decreasing start tiles that use exactly the table's tiles when it holds 3k |
| BitsSearch.SplitsComplete | countTilesBitsSolver.cpp:443-495 | every split of the table into k triples and runs is found, up to the order of its groups |
| BitsSolver.Solution.Add | countTilesBitsSolver.cpp:325-327 | the full set is appended to the solution |
| BitsSolver.Solution.Filter | countTilesBitsSolver.cpp:330-334 | every full set is filtered in turn; the new keys are merged into the answers |
| BitsSolver.FilterSet | countTilesBitsSolver.cpp:185-220 | each group holding extra is opened in turn and the key of the full set is added when new |
| BitsSolver.FilterSlot | countTilesBitsSolver.cpp:190-217 | one slot: the key is added with its line exactly when the group holds extra and the key is new |
| BitsSolver.Answers.Append | countTilesBitsSolver.cpp:212-213 | the key and its printed line are appended together |
| BitsSolver.MergedFacts | countTilesBitsSolver.cpp:208-214 | merging keeps the old keys in front, adds exactly the new ones, and never repeats a key |
| BitsSolver.SplitTileMap | countTilesBitsSolver.cpp:443-495 | the solution gains the full sets of the search's splits, in the order the search lists them |
| BitsSolver.FindWithPair | countTilesBitsSolver.cpp:405-440 | the pair of tile i, the rest split, and the solution filtered: the keys of that pair are merged in |
| BitsSolver.FindWithExtra | countTilesBitsSolver.cpp:399-441 | the keys of every pair from 1 to 9 are merged in, in order |
| BitsSolver.FindAll | countTilesBitsSolver.cpp:363-396 | the answers are the distinct keys of every winning tile, in order, with their lines |
| BitsSolver.Puzzle.Find | countTilesBitsSolver.cpp:344-359 | the lines of the distinct keys, or "(none)" and a line feed when there is none |
| BitsSolver.Join | countTilesBitsSolver.cpp:355-357 | the lines of the keys concatenated in order |
| BitsWaits.WaitsSound | countTilesBitsSolver.cpp:363-441 | every key findAll computes for a 13-tile hand is the key of a waiting form |
| BitsWaits.WaitsComplete | countTilesBitsSolver.cpp:363-441 | the key of every waiting form is computed |
| BitsWaits.FoundKeys | countTilesBitsSolver.cpp:344-359 | the keys printed are distinct and are exactly the keys of the waiting forms |
| BitsWaits.NoneWithoutWaits | countTilesBitsSolver.cpp:348-353 | a hand with no waiting form prints "(none)" |
| BitsEnumerate.Carry | countTilesBitsSolver.cpp:620-654 | the rightmost tile below q that can still grow, or none when none can |
| BitsEnumerate.NextValid | countTilesBitsSolver.cpp:620-685 | the next hand is a valid hand above the current one |
| BitsEnumerate.NextLeast | countTilesBitsSolver.cpp:620-685 | no valid hand lies strictly between a hand and the next one |
| BitsEnumerate.WalkIsAllHands | countTilesBitsSolver.cpp:697-722 | the walk from the least hand along NextHand is the list of all hands |
| BitsEnumerate.PackedRoundTrip | countTilesBitsSolver.cpp:699 | fourteen nibbles packed into a number unpack to themselves |
| BitsEnumerate.NumberRoundTrip | countTilesBitsSolver.cpp:699 | a hand's number gives back the hand, and a number with a zero low nibble its hand's number |
| BitsEnumerate.TileMapOf | countTilesBitsSolver.cpp:586-618 | the tile map built from the number is that of the hand |
| BitsEnumerate.CString | countTilesBitsSolver.cpp:690 | the string read from a buffer stops at its first NUL |
| BitsEnumerate.PatternText | countTilesBitsSolver.cpp:568-584 | the text is the hand's digits, ":" and a line feed when the pattern is enabled, else empty |
| BitsEnumerate.SearchCarry | countTilesBitsSolver.cpp:620-654 | the walk ends exactly when no tile can grow; otherwise rcx is one past the rightmost tile that can |
| BitsEnumerate.CarryDigits | countTilesBitsSolver.cpp:656-685 | the new number is that of the next hand |
| BitsEnumerate.EnumerateOne | countTilesBitsSolver.cpp:542-692 | the tile map of the hand, the end of the walk exactly when there is no next hand, else the next hand's number, and the hand's text when enabled |
| BitsEnumerate.SolveOne | countTilesBitsSolver.cpp:705-716 | one turn: the hand's block when enabled, and the next hand's number unless the walk ends |
| BitsEnumerate.EnumerateAll | countTilesBitsSolver.cpp:697-722 | the result gains every stepSize-th block of the walk from indexOffset on |
| BitsEnumerate.WalkFrom | countTilesBitsSolver.cpp:704-721 | the do-while loop along a walk appends every stepSize-th block from indexOffset on |
| BitsOptions.FindFrom | countTilesBitsMain.cpp:96 | the first position from i on where p occurs, or none |
| BitsOptions.AtoiDecimal | countTilesBitsMain.cpp:101 | atoi reads a decimal number followed by a non-digit as that number |
| BitsOptions.AtoiNegative | countTilesBitsMain.cpp:101 | a minus sign negates the number atoi reads |
| BitsOptions.GetSizeOfThreads | countTilesBitsMain.cpp:88-109 | one thread on Cygwin or for an argument that does not start with "-N"; the number after "-N" when it reads as positive; the hardware's count otherwise |
| BitsOptions.SizeOfThreadsOptions | countTilesBitsMain.cpp:88-109 | "-N" alone asks for the hardware's count, "-Nn" for n when positive, "-N-n" for the hardware's count, anything else for 1 |
| BitsMain.WriteAll | countTilesBitsMain.cpp:38-40 | every string of the result is written in order |
| BitsMain.FullSlots | countTilesBitsMain.cpp:44-75 | the worker with offset w out of W collects q blocks of the first qW + w |
| BitsMain.Merge | countTilesBitsMain.cpp:63-72 | round by round, each worker's block of that round is written, until a worker has none |
| BitsMain.WriteRound | countTilesBitsMain.cpp:65-71 | one round writes the round's block of each worker in turn and stops, clearing the flag, at the first worker that has no block for the round; no worker before it is short |
| BitsMain.MergedFrom | countTilesBitsMain.cpp:63-72 | merging the strides of the blocks from round i on writes the blocks from iW on in order |
| BitsMain.SolveAllInSingleThread | countTilesBitsMain.cpp:35-42 | the output is every block of the walk, in order |
| BitsMain.SolveAllWithThreads | countTilesBitsMain.cpp:44-75 | the merged results of the workers are every block of the walk, in order |
| BitsMain.SolveAll | countTilesBitsMain.cpp:77-84 | whatever the thread count, the output is every block of the walk, in order |
| BitsMain.Run | countTilesBitsMain.cpp:112-116 | the program writes every block of the walk, whatever its argument |
| Text.LeadingDigits | countTiles.rb:269-313 | the leading digits of a string, up to its first non-digit |
| Text.SortStrings | countTiles.rb:67 | the strings in byte-wise order, a permutation of the input |
| Text.SortedUnique | countTiles.rb:67 | two sorted arrays of the same strings are equal |
| Text.Uniq | countTiles.rb:67 | the same strings with every repeat removed |
| Text.UniqIncreasing | countTiles.rb:67 | uniq of a sorted array is strictly increasing |
| RubyTileSet.SortTiles | countTiles.rb:45 | the tiles in ascending order, a permutation of the input |
| RubyTileSet.Reject | countTiles.rb:45 | the values 1..9 of the input, in their order, the others dropped |
| RubyTileSet.FirstWord | countTiles.rb:44 | the first run of non-space characters after the leading white space, or none |
| RubyTileSet.NewTileSet | countTiles.rb:39-47 | a hand read from a line is thirteen sorted tiles 1..9 |
| RubyTileSet.FromWordBag | countTiles.rb:44-46 | a word reads as the sorted digits 1..9 among its characters, exactly when there are thirteen of them |
| RubyTileSet.ParseWord | countTiles.rb:44 | a line with leading spaces, a word and a trailing space reads that word |
| RubyTileSet.ParseBlank | countTiles.rb:44 | a blank line raises NoMethodError |
| RubyTileSet.ParseTwelve | countTiles.rb:227-235 | twelve tiles are an InvalidInputError |
| RubyTileSet.ParseLetter | countTiles.rb:227-235 | a letter is not a tile, so it does not make up the thirteenth |
| RubyTileSet.ParseZeros | countTiles.rb:227-235 | zeros are not tiles, so they can leave the hand short |
| RubyTileSet.TooManyIffCount | countTiles.rb:31-36 | in sorted tiles the check fires exactly when some tile is held five or more times |
| RubyTileSet.FivesFlagged | countTiles.rb:198-210 | five equal digits in a row are flagged, four are not |
| RubySearch.FormatPart | countTiles.rb:181-183 | the tiles as digits between round brackets |
| RubySearch.Positions | countTiles.rb:167 | the first index of each value of the run, and all of them exactly when the whole run is held |
| RubySearch.SearchFlush | countTiles.rb:142-152 | a part exactly when the first tile is held size times; the rest is the tiles without those copies |
| RubySearch.SearchTileSequence | countTiles.rb:160-178 | a part exactly when the run from the first tile is held; the rest is the tiles without one copy of each of its values |
| RubySearch.DeletePositions | countTiles.rb:173 | deleting at position - index removes exactly one copy of each value of the run, and keeps the tiles sorted |
| RubySearch.SearchSame | countTiles.rb:132-139 | searchPair and searchTriple find the pair or triple of the least tile, or nothing |
| RubySearch.SearchSequenceOfThree | countTiles.rb:155-157 | finds the run at the least tile, or nothing |
| RubySearch.SearchPart | countTiles.rb:109-120 | the part in front of every candidate for the rest, or the part alone when there is none |
| RubySearch.Search | countTiles.rb:104-129 | the candidates for a pair (unless one was found), then a triple, then a run |
| RubyCandidates.CandidatesSound | countTiles.rb:104-129 | every candidate is a list of valid groups using tiles of the hand, with at most one pair |
| RubyCandidates.WinningCandidate | countTiles.rb:80 | a candidate with fourteen tiles is a winning split: one pair and four triples or runs using every tile |
| RubyCandidates.CandidatesComplete | countTiles.rb:104-129 | every split of the table into groups with no more pairs than allowed is found, up to order |
| RubyCandidates.WinningSplitsFound | countTiles.rb:104-129 | every winning split of a 14-tile hand is a candidate, up to order |
| RubyMark.Scan | countTiles.rb:83 | the parts of a candidate, each a run of digits in round brackets |
| RubyMark.ScanRender | countTiles.rb:83 | scanning a rendered candidate gives back its parts in order |
| RubyMark.PartHolds | countTiles.rb:86 | the digit is in a part exactly when it is one of its group's tiles |
| RubyMark.MarkExtraTile | countTiles.rb:74-100 | the lines of each candidate, in the order of the candidates |
| RubyMark.MarkCandidate | countTiles.rb:78-96 | none for fewer than fourteen digits; otherwise one line per part holding the tile, that part opened |
| RubyMark.RenderBag | countTiles.rb:80 | the digits of a rendered candidate are its groups' tiles |
| RubySearchAll.Completed | countTiles.rb:56 | the hand with the winning tile added, sorted |
| RubySearchAll.SearchAll | countTiles.rb:50-69 | the output is the sorted, unique lines of every winning tile, or "(none)" |
| RubySearchAll.SearchWithTile | countTiles.rb:53-63 | nothing when the hand would hold five copies; otherwise the marked candidates |
| RubySearchAll.LinesSound | countTiles.rb:50-69 | every line is that of a winning split with one group opened at the winning tile |
| RubySearchAll.LinesComplete | countTiles.rb:50-69 | the line of every such split is printed |
| RubySearchAll.SearchAllOutput | countTiles.rb:66-68 | the output is "(none)" exactly when the hand has no wait; the lines are strictly increasing |
| RubyCheck.CheckTiles | countTiles.rb:269-313 | checkTiles passes exactly when every wait has one or two digits, two digits at most two apart, and the removed tile, if any, completes some wait |
| RubyCheck.OutputWaitSound | countTiles.rb:50-69 | every wait in the output is a group of a winning split without the winning tile |
| RubyCheck.OutputWaitComplete | countTiles.rb:50-69 | the wait of every winning split is printed |
| RubyCheck.RandomPatternAccepted | countTiles.rb:239-245 | checkTiles accepts the output for any thirteen tiles |
| RubyCheck.CompletePatternAccepted | countTiles.rb:248-263 | checkTiles with the removed tile accepts the output for a winning hand with that tile removed |
| RubyCheck.AllPatternsAccepted | countTiles.rb:377-402 | every hand of the exhaustive walk reads back as itself and its output is accepted |
| RubyWalk.Puts | countTiles.rb:385 | `puts` adds a line feed exactly when the text does not already end with one |
| RubyWalk.ExtendPrefix | countTiles.rb:398-399 | a pattern with i copies of head appended stays a sorted hand with at most four copies of a value |
| RubyWalk.CheckPattern | countTiles.rb:382-386 | the hand is read back, searched and accepted by checkTiles, and its digits, a colon, a line feed and the searchAll text are printed, with no extra line feed from puts |
| RubyWalk.EnumerateTiles | countTiles.rb:388-402 | the blocks of every hand that continues the pattern, in the order of Hands.Enumerate: the full hand itself, nothing past tile 9, or head's count from min(remaining, 4) down to 0 (so Hands.EnumerateSound, EnumerateComplete and EnumerateIncreasing hold of the Ruby walk too) |
| RubyWalk.WalkStep | countTiles.rb:397-401 | one turn of the downto loop appends the blocks of the hands with exactly i copies of head |
| RubyWalk.WalkCopies | countTiles.rb:398-400 | newPattern is the pattern with i copies of head, and the walk goes on from head + 1 |
| RubyWalk.CheckAllPattern | countTiles.rb:378-380 | the walk from tile 1 with thirteen tiles prints the block of every hand of AllHands, in order, which by Hands.AllHandsExactly are exactly the valid 13-tile hands |
| RubyWalk.LogBlock | countTiles.rb:378-402 | the block of hand k of the walk sits in the log after the blocks of hands 0..k-1; the hand is valid and its printed waits are accepted by checkTiles |
| RubyWalk.SameHeader | countTiles.rb:385 | a hand's Ruby block starts with the same header line as the C++ engine's block for it |
| CompareLog.WordRun | countTilesCompareLog.rb:21 | the leading word characters of a string, ending at its first other character |
| CompareLog.TileSet.constructor | countTilesCompareLog.rb:13-16 | the header is the line and a line feed; no lines yet |
| CompareLog.TileSet.Add | countTilesCompareLog.rb:20-24 | the normalised line is appended exactly when its tokens cover it; otherwise InternalCheckerError |
| CompareLog.TileSet.ToString | countTilesCompareLog.rb:27-30 | the header then the sorted lines, or InternalCheckerError for a block with no line |
| CompareLog.TokensLength | countTilesCompareLog.rb:21 | the tokens cover at most the line, and cover it only when they are the line |
| CompareLog.CoveredIff | countTilesCompareLog.rb:22 | the check passes exactly when the tokens concatenated are the line |
| CompareLog.TokensOf | countTilesCompareLog.rb:21 | a line made of tokens scans as those tokens |
| CompareLog.TokenOrder | countTilesCompareLog.rb:21 | two lines whose tokens are permutations of each other normalise the same |
| CompareLog.LineOrder | countTilesCompareLog.rb:29 | a block's text does not depend on the order of its lines |
| CompareLog.LogFile.constructor | countTilesCompareLog.rb:35-37 | an empty list of blocks, and a detached block with an empty header |
| CompareLog.LogFile.ParseLine | countTilesCompareLog.rb:47-54 | a header opens a new block; another line is added to the current block, or to the detached one before any header; a line whose tokens do not cover it fails |
| CompareLog.LogFile.Load | countTilesCompareLog.rb:39-43 | the blocks are those of parsing every line in turn, or the parse fails at a line |
| CompareLog.LogFile.ToStringSet | countTilesCompareLog.rb:57-59 | the text of each block in order, or InternalCheckerError when a block has no line |
| CompareLog.ParseFails | countTilesCompareLog.rb:47-54 | a log fails to parse exactly when one of its lines is neither a header nor covered by its tokens |
| CompareLog.ParseHeaders | countTilesCompareLog.rb:47-54 | there is one block per header line, in order, with that header |
| CompareLog.LeadingLines | countTilesCompareLog.rb:35-54 | lines before the first header are checked and then dropped |
| CompareLog.CompareWithTrue | countTilesCompareLog.rb:76-85 | the logs match the base exactly when it has 93600 blocks and each is equal to it |
| CompareLog.CompareTrue | countTilesCompareLog.rb:76-94 | compare succeeds exactly when there are at least two logs, the first has 93600 blocks and all are equal to it |
| CompareLog.CompareErrors | countTilesCompareLog.rb:76-94 | fewer than two logs are an InternalCheckerError; an IndexError needs logs of different lengths; equal lengths give no error |
| CompareLog.BlockPerHand | countTilesCompareLog.rb:65 | 93600 is the number of hands of the exhaustive walk |

## Left out

- Stream output, `main` and `printTable`: the model returns strings instead of writing to `std::cout` or an `ostringstream`.
- `TileFullSet::fail_` and the digit count it is computed from: they are written but never read.
- `allStrTable_`: a cache shared across hands that is written but never changes any output.
- The interning of `TilePair` and `ThreeTiles` instances through `unique_ptr` maps: a group is a value, and its key, text and attribute table are functions of its tiles.
- `std::sort`: the model sorts with a stable insertion sort. `CountTilesRender.SortChoiceIrrelevant` shows that any descending sort gives the same key and line, so the library's order of equal keys does not matter.
- `std::isdigit`: modelled as the ASCII digits '0' to '9', the "C" locale.
- CountTilesFullSet.TileFullSet.SearchAll: the expected strings of the five self-test hands of `AllTileSet::ExecuteTest` are not evaluated. Unfolding the whole search on concrete hands costs more than the verifier can afford.
- `CountTilesAll.EnumerateAll`: states its output as `Reports(Report, Prefixed([], Enumerate(TileMin, HandSize)))` rather than in terms of `AllHands()`. `CountTilesAll.PrefixedEmpty` and the definition of `AllHands` make the two the same list of hands. The walk is proved for any block writer `block` that agrees with `Report` on every hand (`WritesReport`), and `EnumerateAll` passes `Report` itself.
- The bit engine's 64-bit words: a `TileMap` is ten 5-bit fields rather than one `uint64_t`. Each inline assembly block is modelled by its effect on the fields it reads and writes. Keys are unbounded naturals, and a group key is proved to stay below 1024 (`BitsTileMap.GroupKey`).
- `TileSet::Print`'s 8-byte stores into the 32-byte `ResultString` buffer: a line is a string, and the up to five bytes written past the last slot are not modelled.
- The worker threads of `solveAllWithThreads` run one after the other. The merge reads their results only after every future has returned, so the order of execution does not change the output. `THREAD_HARDWARE_CONCURRENCY()` and the `__CYGWIN__` switch are parameters of `GetSizeOfThreads`.
- BitsOptions.GetSizeOfThreads: `atoi` is read as an unbounded number, so a count that overflows `int` is not modelled.
- The walk over the hands is a ghost parameter of `EnumerateAll` and `SolveAll`. `BitsEnumerate.WalkIsAllHands` proves that the only such walk is the list of all hands.
- countTiles.rb's top level: `ARGV`, `STDIN.gets`, its `puts` and "All tests passed" are not modelled; the `puts` of `checkPattern` is `RubyWalk.Puts`. `RubyTileSet.NewTileSet` takes the line as a parameter.
- `getRandomPattern` and `getCompletePattern` draw from `Random`. `RubyCheck.RandomPatternAccepted` covers every 13-tile hand, and `RubyCheck.CompletePatternAccepted` covers every winning hand with at most four copies of each tile, whichever the generators produce. In `getCompletePattern`, `candidates[n + 1] -= 1` decrements one neighbour three times where `n + i` was evidently meant. That only changes which hands are drawn, and every hand is covered.
- RubySearchAll.SearchAll: the expected answers of the six sample hands in `check` are not evaluated: unfolding the search on concrete hands costs more than the verifier can afford. Their input errors and the five-copies check are proved (`RubyTileSet.ParseTwelve`, `RubyTileSet.ParseLetter`, `RubyTileSet.ParseZeros`, `RubyTileSet.FivesFlagged`).
- Ruby arrays are sequence values. `dup` makes every array the script mutates private, so nothing is aliased.
- RubyTileSet.FirstWord: white space is ' ', '\t', '\n', '\v', '\f' and '\r'. The NUL that `strip` also removes from the end of a line is not modelled.
- RubyTileSet.TooManyTilesForKind: the regular expression runs over the tiles written one digit each, so only values 0..9 are modelled, which covers every hand the script builds.
- RubyCheck.CheckTiles: a raised `TestingFailed` is the result false. `each_line` is not modelled separately: the scan runs over the whole output, which finds the same matches because none can span a line feed.
- countTilesCompareLog.rb's files: `File.open`, `gets`, `warn`, `puts` and `exit` are not modelled. `CompareLog.LogFile.Load` takes the lines of a log without their line feeds, which is what `chomp` leaves. `LogFileSet.initialize` opens three fixed files, and `CompareLog.Compare` takes any list of logs.
- CompareLog.LogFile.ParseLine: the `InternalCheckerError` raised by `add` is the result false.

## Findings

| source | as written | input that shows it | evidently intended | confidence | as-written member | corrected member |
|---|---|---|---|---|---|---|
| countTiles.cpp:310-370 | a three-tile group counts its tiles in `tileAttrSet_[tile]`, and `HasTile` reads the same raw slot, but the table has nine slots, indexed 0..8 by `GetArrayIndex` everywhere else | the triple 999 (or any group holding a 9) counts into slot 9, past the end | `HasTile(t)` means that t is one of the group's tiles, counted in slot t - 1 | high (not executed) | TileSets.AsWrittenOutOfRange | TileSets.HasTileIsMember |
| countTiles.cpp:557-575 | the line constructor never sets `found`, so after the first run of digits it skips every non-digit and counts every later digit too | "1112345678999 1" counts four 1s | the hand is the first run of digits, and the rest of the line is ignored | high (not executed) | CountTilesFullSet.LineCountsDiffer | CountTilesFullSet.ReadHand |
