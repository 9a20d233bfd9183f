# boingoing/samples in Dafny

A model of the algorithm collection boingoing/samples: a set-associative cache with a
least-recently-used replacement policy, a reorder buffer for UDP packets, a toy Redis
front end, a backup-set index, an interval set, grid algorithms over islands, mazes and
skylines, hash-map and string puzzles, in-place array algorithms, digit and bit
arithmetic, and three passes of a toy optimizer over a basic block.

Each source file of the core becomes one Dafny module (two for src/bitwise_ops.cc and
src/math_intervals.cc, which hold two separate routines each). Most Dafny files are named
after the source file they model; the table below lists the rest. Code that updates state
step by step stays imperative: methods with loops and invariants, classes whose methods
update their fields, arrays updated in place. Each method is proved against a
specification function or predicate, and the properties the C++ code promises are proved
about those as lemmas. Test tables and driver scenarios become lemmas about the
specification functions on the literal inputs.

| Dafny file | models |
|---|---|
| array_maze.dfy | src/array_maze.cc |
| bitwise.dfy | src/bitwise_ops.cc (modules Bitwise and BitCount) |
| bounding_box.dfy | src/math_points_bounding_box.cc |
| cache.dfy | src/hashmap_cache.cc |
| combinations.dfy | src/array_combinations.cc |
| count_map.dfy, majority.dfy | src/array_majority_element.cc (the counting map, then the vote) |
| digits.dfy, make_change.dfy | src/math_digits.cc, src/math_make_change.cc |
| gas_stations.dfy, h_index.dfy, jump_game.dfy, max_delta.dfy, min_rewards.dfy | src/array_<stem>.cc for each file <stem>.dfy |
| rain.dfy, search.dfy, shift.dfy, sorted_merge.dfy, sudoku.dfy, two_sum.dfy | src/array_<stem>.cc for each file <stem>.dfy |
| remove_element.dfy | src/array_remove_element.cc and its header |
| remove_duplicates.dfy, remove_two_duplicates.dfy | src/array_remove_duplicates.cc (the two routines it holds) |
| permutations.dfy | src/math_permutations.cc |
| math_intervals.dfy | src/math_intervals.cc (modules Intervals and Segments) |
| grids.dfy | the grid, reachability and flood-fill definitions the four island files share |
| graph_islands_count.dfy, graph_islands_size.dfy, graph_islands_enclosed_space.dfy | the src/ files of the same stem |
| graph_islands_identify.dfy | src/graph_islands_identify.cc and src/count_islands.cc, which is the same algorithm without templates |
| graph_city_skyline.dfy | src/graph_city_skyline.cc |
| ir.dfy | src/compiler_structs.h and src/compiler_structs.cc: the basic block and its fixture |
| constant_fold.dfy, constant_prop.dfy, dead_code.dfy | the src/ files of the same stem |
| dead_code_list.dfy | dead_code.cc at the top of the repository, the first version of dead code elimination |
| hashmap_backup_set.dfy, hashmap_duplicates.dfy, hashmap_happy_number.dfy, hashmap_ransom.dfy | the src/ files of the same stem |
| hashmap_redis.dfy, hashmap_sequence.dfy, hashmap_strings.dfy | the src/ files of the same stem |
| string_find_word_under_cursor.dfy, string_palindromes.dfy, string_paren_parsing.dfy | the src/ files of the same stem |
| udp_buffer.dfy | src/udp_buffer.cc |
| wrappers.dfy | the Option type the other modules share |

## Model

| member | source | states |
|---|---|---|
| Cache.HashToSet | src/hashmap_cache.cc:161-163 | the set index of a key is below the number of sets and depends on the key (as a 64-bit size_t) and the number of sets alone |
| Cache.VictimUnique | src/hashmap_cache.cc:36-46 | at most one slot is the eviction target: smallest stamp, earliest among equal stamps |
| Cache.OldestSlot | src/hashmap_cache.cc:36-46 | the reference eviction target is a victim in that sense |
| Cache.FreshStampIsNotVictim | src/hashmap_cache.cc:32-34 | a slot stamped with a counter above every other stamp is never the eviction target while another slot exists |
| Cache.LruPolicy.constructor | src/hashmap_cache.cc:27-28 | a fresh policy has counter 0 and one zero stamp per slot |
| Cache.LruPolicy.NotifyUsed | src/hashmap_cache.cc:32-34 | the slot gets the current counter as stamp, and the counter advances by one |
| Cache.LruPolicy.ChooseEvictionTarget | src/hashmap_cache.cc:36-46 | returns the index with the smallest stamp, the lowest such index on ties |
| Cache.FindSlot | src/hashmap_cache.cc:86-96 | the first slot holding the key, or none exactly when no slot holds it |
| Cache.ValueOf | src/hashmap_cache.cc:125-133 | a set yields a value for a key exactly when one of its slots holds the key |
| Cache.FindSlotSameKeys | src/hashmap_cache.cc:87-89 | the key scan depends only on the positions holding the key |
| Cache.FindSlotAppend | src/hashmap_cache.cc:99-104 | appending a slot for another key does not change a key scan |
| Cache.Store | src/hashmap_cache.cc:79-119 | Set on one set keeps the number of slots within the capacity and the capacity unchanged |
| Cache.Fetch | src/hashmap_cache.cc:121-134 | Get leaves the slots of the set unchanged |
| Cache.StoreKeepsValid | src/hashmap_cache.cc:86-118 | Set keeps keys distinct, stamps distinct and below the counter, and the set within capacity |
| Cache.StoreSize | src/hashmap_cache.cc:87-118 | a new key in a set with room is appended at the back, size plus one, earlier slots untouched; otherwise exactly one slot is overwritten in place and the size is unchanged |
| Cache.StoreThenValue | src/hashmap_cache.cc:92-118 | after Set, the key reads back the value just stored |
| Cache.StoreKeepsOtherValues | src/hashmap_cache.cc:86-118 | Set changes no other key's value, except that at capacity the key in the least recently used slot is evicted |
| Cache.StoreEvictsOldest | src/hashmap_cache.cc:107-118 | at capacity, exactly the victim slot of the LRU policy is overwritten |
| Cache.StoredIsNotNextVictim | src/hashmap_cache.cc:32-111 | in a full set of more than one slot, the key just written is not the next victim |
| Cache.FetchSpec | src/hashmap_cache.cc:121-134 | Get returns the stored value or 0 on a miss, keeps the slots, and keeps the invariant |
| Cache.SetAssociativeCache.ReplaceSetKeepsLookups | src/hashmap_cache.cc:80-82 | replacing one set's slots does not change lookups of keys routed to other sets |
| Cache.SetAssociativeCache.constructor | src/hashmap_cache.cc:73-159 | numSets empty sets, each with a fresh policy of numSlots stamps; the cache invariant holds |
| Cache.SetAssociativeCache.Set | src/hashmap_cache.cc:79-119 | the key's set becomes Store of its old state, no other set changes, the key reads back the value, every other key keeps its value unless it was the evicted one, and the invariant holds |
| Cache.SetAssociativeCache.Commit | src/hashmap_cache.cc:92-118 | stamping the touched slot and installing the new slots gives the state Store describes |
| Cache.SetAssociativeCache.SetFinish | src/hashmap_cache.cc:79-119 | the cache invariant and lookup frame after a committed Set |
| Cache.SetAssociativeCache.Get | src/hashmap_cache.cc:121-134 | returns what Fetch returns and leaves the key's set in the state Fetch describes; no slot changes |
| Cache.SetAssociativeCache.Touch | src/hashmap_cache.cc:127-129 | a hit refreshes only the stamp of the key's slot |
| Cache.StoreAppends | src/hashmap_cache.cc:99-105 | the append case of Store, spelled out |
| Cache.StoreEvicts | src/hashmap_cache.cc:107-118 | the eviction case of Store, spelled out |
| Cache.StoreRefreshes | src/hashmap_cache.cc:86-96 | the overwrite case of Store, spelled out |
| Cache.ScenarioKeysShareSet | src/hashmap_cache.cc:169-178 | keys 1, 5, 9, 13, 17, 21 and 25 all go to set 1 of 4 |
| Cache.ScenarioSet1 | src/hashmap_cache.cc:169-170 | Set(1, 2) on the empty set appends |
| Cache.ScenarioSet2 | src/hashmap_cache.cc:171 | Set(5, 3) appends |
| Cache.ScenarioSet3 | src/hashmap_cache.cc:172 | Set(9, 4) appends |
| Cache.ScenarioSet4 | src/hashmap_cache.cc:173 | Set(13, 5) appends |
| Cache.ScenarioSet5 | src/hashmap_cache.cc:174 | Set(17, 6) fills the set |
| Cache.ScenarioSet6 | src/hashmap_cache.cc:175 | Set(21, 7) evicts key 1 |
| Cache.ScenarioSet7 | src/hashmap_cache.cc:176 | Set(9, 8) overwrites in place |
| Cache.ScenarioGet | src/hashmap_cache.cc:177 | Get(5) returns 3 and refreshes its slot |
| Cache.ScenarioSet8 | src/hashmap_cache.cc:178 | Set(25, 9) evicts key 13 |
| CountMap.CountOfConcat | src/array_majority_element.cc:14-18 | counts of a concatenation add up |
| CountMap.CountOfAt | src/array_majority_element.cc:14-18 | in an ordered map, a key's count is its entry's count |
| CountMap.CountOfAbsent | src/array_majority_element.cc:14-18 | a key without entry has count 0 |
| CountMap.Increment | src/array_majority_element.cc:16 | `map[n]++` raises the count of n by one and no other, keeping the keys ordered |
| CountMap.CountElements | src/array_majority_element.cc:14-18 | the map holds each element with its number of occurrences, in increasing key order |
| Majority.TwoCounts | src/array_majority_element.cc:28-33 | two different values occur at most n times together |
| Majority.ThreeCounts | src/array_majority_element.cc:47-52 | three different values occur at most n times together |
| Majority.MajorityUnique | src/array_majority_element.cc:20-23 | at most one value occurs more than n/2 times |
| Majority.AtMostTwoFrequent | src/array_majority_element.cc:39-52 | at most two values occur more than n/3 times |
| Majority.MajorityElement | src/array_majority_element.cc:24-37 | returns the value occurring more than n/2 times, or 0 when there is none |
| Majority.MajorityElements | src/array_majority_element.cc:42-55 | returns, in increasing order, exactly the values occurring more than n/3 times, never more than two |
| Majority.MajorityExamples | src/array_majority_element.cc:77-84 | the driver's expected majority elements |
| HIndex.CountStep | src/array_h_index.cc:13-17 | raising the threshold by one drops exactly the counts equal to it |
| HIndex.CountMonotone | src/array_h_index.cc:13-17 | raising the threshold never raises the number of counts reaching it |
| HIndex.CountGap | src/array_h_index.cc:38-43 | across thresholds no count falls into, the number reaching the threshold is constant |
| HIndex.HIndexIsLargest | src/array_h_index.cc:13-15 | no h' above the h-index has h' counts reaching h' |
| HIndex.HIndexUnique | src/array_h_index.cc:13-15 | the h-index is unique |
| HIndex.SearchDown | src/array_h_index.cc:13-15 | the downward search from an h below which the index must lie finds it |
| HIndex.HIndexOf | src/array_h_index.cc:13-15 | the reference h-index exists and is at most the number of citations |
| HIndex.PlateauIsHIndex | src/array_h_index.cc:53-59 | when s counts reach every threshold up to the next key, s is the h-index |
| HIndex.HIndex | src/array_h_index.cc:18-60 | returns the h-index, between 0 and the number of citations |
| HIndex.WalkDescending | src/array_h_index.cc:29-59 | the walk over the keys from the largest down, skipping 0, ends at the h-index |
| HIndex.HIndexExamples | src/array_h_index.cc:71-74 | the driver's first four cases |
| HIndex.HIndexMoreExamples | src/array_h_index.cc:75-78 | the driver's remaining four cases |
| ArraySearch.CountLess | src/array_search.cc:11-13 | the insertion index is at most the length |
| ArraySearch.BoundaryIsCountLess | src/array_search.cc:11-13 | an index with smaller values before and larger ones from it on is the number of smaller values |
| ArraySearch.FoundAtCountLess | src/array_search.cc:11-13 | a present target sits at the number of smaller values |
| ArraySearch.BinarySearch | src/array_search.cc:16-39 | returns the target's index if present, else its insertion index, between 0 and the length, and every probe is in range |
| ArraySearch.SearchExamples | src/array_search.cc:50-52 | the driver's cases give 2, 1 and 4 |
| JumpGame.ReachableDownward | src/array_jump_game.cc:33-46 | from a reachable index, every index it can jump to is reachable |
| JumpGame.CanSolve | src/array_jump_game.cc:24-50 | fewer than two elements are solvable; otherwise the result is true exactly when the last index is reachable from index 0 |
| JumpGame.JumpExamples | src/array_jump_game.cc:18-62 | the doc and driver examples |
| MaxDelta.MinBeforeIsMinimum | src/array_max_delta.cc:19-28 | the running minimum is the smallest of the elements seen and one of them |
| MaxDelta.BestRiseIsMaximum | src/array_max_delta.cc:11-12 | the reference best rise is at least 0, at least every nums[j] - nums[i] with i < j, and equal to one of them unless it is 0 |
| MaxDelta.ArrayMaxDelta | src/array_max_delta.cc:13-39 | returns the largest nums[j] - nums[i] over i < j, or 0 when no pair rises |
| MaxDelta.RiseSum | src/array_max_delta.cc:70-106 | the sum of the positive neighbour steps is never negative |
| MaxDelta.RiseSumSplit | src/array_max_delta.cc:57-65 | the sum of rises splits into the sums of two windows sharing one element |
| MaxDelta.RiseAtMostRiseSum | src/array_max_delta.cc:57-65 | a single rise nums[j] - nums[i] with i < j never exceeds the sum of rises |
| MaxDelta.BestRiseAtMostRiseSum | src/array_max_delta.cc:11-65 | the best single rise never exceeds the sum of rises |
| MaxDelta.NonIncreasingRiseSum | src/array_max_delta.cc:85-97 | a non-increasing array has sum of rises 0 |
| MaxDelta.NonIncreasingHasNoRise | src/array_max_delta.cc:16-135 | a non-increasing array has best rise 0 |
| MaxDelta.ArrayMaxDeltaSum | src/array_max_delta.cc:46-109 | the backward window walk returns the sum of the positive steps between neighbours, 0 for fewer than two elements |
| MaxDelta.MaxDeltaExamples | src/array_max_delta.cc:128-133 | the driver's cases of array_max_delta |
| MaxDelta.MaxDeltaMoreExamples | src/array_max_delta.cc:134-135 | the driver's remaining cases of array_max_delta |
| MaxDelta.MaxDeltaSumExamples | src/array_max_delta.cc:137-143 | the driver's cases of array_max_delta_sum |
| MaxDelta.MaxDeltaSumLongExample | src/array_max_delta.cc:142 | the twelve-element case gives 8 |
| GasStations.NeverNegativeAt | src/array_gas_stations.cc:40-43 | a loop that never failed had a non-negative tank after every leg |
| GasStations.NeverNegativeFromAll | src/array_gas_stations.cc:40-43 | a tank non-negative after every leg means the loop never failed |
| GasStations.FirstCompleting | src/array_gas_stations.cc:53-61 | the reference answer: -1 exactly when no station at or after s completes the loop, else the first that does |
| GasStations.NextPotentialStart | src/array_gas_stations.cc:14-25 | returns the first station at or after start whose gas covers its cost, or -1; a negative start gives -1 |
| GasStations.NextStation | src/array_gas_stations.cc:45-46 | `(station + 1) % size` is the next station round the circuit |
| GasStations.CanCompleteFrom | src/array_gas_stations.cc:27-51 | true exactly when the tank, refuelled and paid at each station from start, stays non-negative over one full loop |
| GasStations.ShortStationFails | src/array_gas_stations.cc:14 | a station whose gas does not cover its cost cannot start a loop |
| GasStations.SkipFailing | src/array_gas_stations.cc:68-76 | skipping stations that cannot complete keeps the first completing station |
| GasStations.SkipUpTo | src/array_gas_stations.cc:66-75 | the stations NextPotentialStart skips do not change the first completing station |
| GasStations.CanCompleteCircuit | src/array_gas_stations.cc:64-79 | returns the smallest station from which the loop completes, or -1 (also for no stations) |
| GasStations.NetSplit | src/array_gas_stations.cc:53-61 | net gains of adjacent station ranges add up |
| GasStations.TankIsNet | src/array_gas_stations.cc:34-47 | the tank after k legs is the net gain of the stations passed, wrapping round once |
| GasStations.FullLoopTank | src/array_gas_stations.cc:34-47 | after a full loop the tank is total gas minus total cost, whatever the start |
| GasStations.ShortfallMeansNoCircuit | src/array_gas_stations.cc:53-78 | with less gas than cost in total, the answer is -1 |
| GasStations.GasStationExample1 | src/array_gas_stations.cc:87 | the first row gives 3 |
| GasStations.GasStationExample2 | src/array_gas_stations.cc:88 | the second row gives -1 |
| GasStations.GasStationExample3 | src/array_gas_stations.cc:89 | the third row gives 4 |
| GasStations.GasStationExamples4And5 | src/array_gas_stations.cc:90-91 | the last two rows give 0 |
| Rain.HasWallInMeans | src/array_rain.cc:29-31 | the wall test holds exactly when some column in the range reaches the level |
| Rain.CountTrapped | src/array_rain.cc:29-31 | at most n of the first n cells hold water |
| Rain.TotalWater | src/array_rain.cc:18-46 | the water total is never negative |
| Rain.MaxHeight | src/array_rain.cc:22 | the highest column is at least every column and is one of them |
| Rain.NoWallNoWater | src/array_rain.cc:37-57 | before the first wall no cell holds water |
| Rain.WaterBetweenWalls | src/array_rain.cc:41-49 | every cell between two walls holds water |
| Rain.WallNotTrapped | src/array_rain.cc:41 | a wall holds no water |
| Rain.NoWaterAfterLastWall | src/array_rain.cc:51-58 | cells after the last wall hold no water |
| Rain.CountLevel | src/array_rain.cc:37-59 | the walk over one level returns the number of cells below it with a wall on each side |
| Rain.TrappedRainWater | src/array_rain.cc:17-63 | requires a non-empty map; returns the water summed over levels 1 to the highest column, never negative |
| Rain.NoWaterAboveTop | src/array_rain.cc:19-26 | no level above the highest column holds water, so stopping there loses nothing |
| Rain.NonDecreasingLevelDry | src/array_rain.cc:39-59 | a non-decreasing map holds no water at any level |
| Rain.NonDecreasingTrapsNothing | src/array_rain.cc:39-59 | a non-decreasing map traps 0 in total |
| Rain.StepsIncreasing | src/array_rain.cc:39-59 | a wall list increasing step by step is increasing |
| Rain.WaterUpToWall | src/array_rain.cc:41-49 | up to each wall, the water is the sum of the gaps between the walls so far |
| Rain.LevelWaterIsGaps | src/array_rain.cc:27-36 | the water at a level is the sum of the gaps between consecutive walls |
| Rain.RainExample1Level1 | src/array_rain.cc:70 | the first map holds 2 cells at level 1 |
| Rain.RainExample1Level2 | src/array_rain.cc:70 | the first map holds 4 cells at level 2 |
| Rain.RainExample1 | src/array_rain.cc:70 | the first map traps 6 |
| Rain.RainExample2Level1 | src/array_rain.cc:71 | the second map holds 1 cell at level 1 |
| Rain.RainExample2Level2 | src/array_rain.cc:71 | the second map holds 1 cell at level 2 |
| Rain.RainExample2Level3 | src/array_rain.cc:71 | the second map holds 3 cells at level 3 |
| Rain.RainExample2 | src/array_rain.cc:71 | the second map traps 9 |
| RemoveElement.KeptCons | src/array_remove_element.cc:28-45 | the first element of a sequence is kept exactly when it is not the removed value |
| RemoveElement.KeptAllVal | src/array_remove_element.cc:43-45 | an array holding only the removed value keeps nothing (the window never opens) |
| RemoveElement.CopyDown | src/array_remove_element.cc:32-36 | overwriting a removed value with the element at the window's top keeps the window's contents |
| RemoveElement.GrowDown | src/array_remove_element.cc:28-49 | a further kept element extends the window by exactly that element |
| RemoveElement.ScanValOpen | src/array_remove_element.cc:28-40 | a removed value met while the window is open is counted and overwritten, keeping the scan invariant |
| RemoveElement.ScanValClosed | src/array_remove_element.cc:28-40 | a removed value met before any kept element is only counted |
| RemoveElement.ScanOpen | src/array_remove_element.cc:43-45 | the first kept element from the back opens the window at its own index |
| RemoveElement.ScanKeep | src/array_remove_element.cc:28-49 | later kept elements grow the window without moving anything |
| RemoveElement.ScanDone | src/array_remove_element.cc:51 | once every index is examined the front n - count slots hold exactly the kept elements |
| RemoveElement.ScanFromBack | src/array_remove_element.cc:20-50 | the backward walk ends with the count of removed values and the kept elements in a window ending at the good index |
| RemoveElement.Remove | src/array_remove_element.cc:14-52 | returns the number of elements other than the value, and the array's front holds exactly those elements (as a multiset) |
| RemoveElement.KeptSize | src/array_remove_element.cc:51 | the kept elements number the length minus the occurrences of the value |
| RemoveElement.RemoveExample1 | src/array_remove_element.cc:66 | {3,2,2,3} without 3 keeps {2,2}, count 2 |
| RemoveElement.RemoveExample2 | src/array_remove_element.cc:67 | {0,1,2,2,3,0,4,2} without 2 keeps {0,1,0,4,3}, count 5 |
| RemoveDuplicates.IncreasingUnique | src/array_remove_duplicates.cc:10-12 | two increasing sequences with the same values are equal, so the distinct-values prefix is the only correct answer |
| RemoveDuplicates.HeadIsLeast | src/array_remove_duplicates.cc:10-12 | the head of an increasing sequence is its least value |
| RemoveDuplicates.DedupShape | src/array_remove_duplicates.cc:10-12 | for sorted input the distinct values of a prefix are increasing, end in its last element and are exactly its values |
| RemoveDuplicates.DedupFlat | src/array_remove_duplicates.cc:41-43 | elements equal to the last value seen add no distinct value (what the swap walk skips) |
| RemoveDuplicates.WalkFresh | src/array_remove_duplicates.cc:37-55 | a current element above the previous one can only occur before the first duplicate, and it extends the prefix |
| RemoveDuplicates.WalkCopy | src/array_remove_duplicates.cc:37-48 | copying the element where the swap walk stops extends the prefix by the next larger value, and the swap index passes the current index |
| RemoveDuplicates.WalkExhausted | src/array_remove_duplicates.cc:49-52 | when the swap walk runs off the end, the prefix up to the current index holds every distinct value once, in increasing order |
| RemoveDuplicates.WalkFinished | src/array_remove_duplicates.cc:58 | a loop that ends without returning counted no duplicate, so the whole array is the answer |
| RemoveDuplicates.SkipNotAbove | src/array_remove_duplicates.cc:41-43 | the swap walk stops at the first element above the bound, or at the end, having passed only elements not above it |
| RemoveDuplicates.RemoveAllDuplicates | src/array_remove_duplicates.cc:13-59 | for sorted input, the returned prefix holds every value of the array exactly once, in increasing order (including the empty and one-element arrays) |
| RemoveDuplicates.RemoveAllDuplicatesExamples | src/array_remove_duplicates.cc:119-127 | {1,2,2,3,3} gives {1,2,3} and {1,1,1,3,3,3,4} gives {1,3,4} |
| RemoveTwoDuplicates.SkipNotAboveBoth | src/array_remove_duplicates.cc:76-78 | the all-but-2 swap walk stops at the first element above either previous value, or at the end |
| RemoveTwoDuplicates.ButTwoFrom | src/array_remove_duplicates.cc:72-91 | the all-but-2 loop as written returns a count within the array |
| RemoveTwoDuplicates.RemoveAllButTwoAsWritten | src/array_remove_duplicates.cc:64-92 | the all-but-2 routine as written returns a count within the array |
| RemoveTwoDuplicates.ButTwoCounterexample | src/array_remove_duplicates.cc:138 | as written, {1,1,1,2,2,3} yields the count 4 |
| RemoveTwoDuplicates.ButTwoIntended | src/array_remove_duplicates.cc:138 | keeping each value at most twice, {1,1,1,2,2,3} leaves {1,1,2,2,3}, five elements |
| RemoveTwoDuplicates.KeepTwoSorted | src/array_remove_duplicates.cc:61-63 | for sorted input the at-most-two prefix is sorted and ends in the last element seen |
| RemoveTwoDuplicates.KeepTwoTail | src/array_remove_duplicates.cc:61-63 | two copies of the last kept value can only sit in the last two slots |
| RemoveTwoDuplicates.DropThird | src/array_remove_duplicates.cc:73-74 | dropping a third copy keeps every count at min(count, 2) |
| RemoveTwoDuplicates.KeepNext | src/array_remove_duplicates.cc:61-63 | keeping a value held fewer than twice raises its count by one, as min(count, 2) does |
| RemoveTwoDuplicates.PresentIsLast | src/array_remove_duplicates.cc:61-63 | in a sorted sequence whose last element is at most v, v can only occur as the last element |
| RemoveTwoDuplicates.FewerThanTwo | src/array_remove_duplicates.cc:61-63 | a value not filling the last two slots occurs fewer than twice |
| RemoveTwoDuplicates.FewerThanTwoKept | src/array_remove_duplicates.cc:61-63 | a value not already kept twice at the end is kept fewer than twice |
| RemoveTwoDuplicates.CountsDropStep | src/array_remove_duplicates.cc:61-63 | dropping a third copy preserves "each value min(count, 2) times" |
| RemoveTwoDuplicates.CountsKeepStep | src/array_remove_duplicates.cc:61-63 | keeping a first or second copy preserves "each value min(count, 2) times" |
| RemoveTwoDuplicates.KeepTwoCounts | src/array_remove_duplicates.cc:61-63 | the at-most-two prefix of a sorted array keeps each value min(count, 2) times |
| RemoveTwoDuplicates.KeepTwoStep | src/array_remove_duplicates.cc:61-63 | one step of the write-index loop extends the kept prefix as the reference does |
| RemoveTwoDuplicates.KeepTwoDone | src/array_remove_duplicates.cc:61-63 | the finished prefix is sorted and keeps each value min(count, 2) times |
| RemoveTwoDuplicates.RemoveAllButTwoDuplicates | src/array_remove_duplicates.cc:61-92 | corrected routine: for sorted input the returned prefix is sorted and holds each value min(count, 2) times |
| SortedMerge.MergeAtPermutes | src/array_sorted_merge.cc:19-45 | the merge of two prefixes has their combined length and holds exactly their elements |
| SortedMerge.AtMostLast | src/array_sorted_merge.cc:13-16 | every element of a sorted prefix is at most its last element |
| SortedMerge.SortedSnoc | src/array_sorted_merge.cc:42 | appending a value not below anything already placed keeps the sequence sorted |
| SortedMerge.MergeAtBound | src/array_sorted_merge.cc:34-40 | nothing in the merge of two sorted prefixes exceeds the larger of their last elements |
| SortedMerge.MergeAtSorted | src/array_sorted_merge.cc:25-44 | the merge of two sorted prefixes is sorted |
| SortedMerge.MergeSortedPermutation | src/array_sorted_merge.cc:13-45 | merging two sorted inputs yields a sorted permutation of their combined multiset |
| SortedMerge.MergeStart | src/array_sorted_merge.cc:21-23 | before the loop, nums1 holds the first input and nothing is placed yet |
| SortedMerge.MergeDone | src/array_sorted_merge.cc:25 | once no index remains, nums1[..m + n] is the whole merge |
| SortedMerge.TakeFromFirst | src/array_sorted_merge.cc:31-36 | moving nums1's last remaining value to the insert point keeps the loop state |
| SortedMerge.TakeFromSecond | src/array_sorted_merge.cc:28-39 | moving nums2's last remaining value to the insert point keeps the loop state, also on a tie |
| SortedMerge.Merge | src/array_sorted_merge.cc:19-45 | nums1[..m + n] becomes the merge of the old nums1[..m] and nums2[..n], larger last values going last and nums2's on a tie; slots past m + n are untouched and nums2 is never written |
| SortedMerge.MergeExamples | src/array_sorted_merge.cc:60-61 | {1,2,3} with {2,5,6} gives {1,2,2,3,5,6}, and {} with {1} gives {1} |
| Shift.EffectiveShift | src/array_shift.cc:15-16 | the shift actually applied lies in [0, n), and is k mod n for every k that is not negative |
| Shift.RotateRightIndex | src/array_shift.cc:11-13 | the rotation by k puts the old element at (i - k) mod n at position i |
| Shift.ShiftIndex | src/array_shift.cc:11-16 | for any k >= 0, also k >= n, the shifted array holds at i the old element at (i - k) mod n |
| Shift.ModUnique | src/array_shift.cc:16 | the remainder is the r of any split x = c * n + r with 0 <= r < n |
| Shift.RotateRightPermutes | src/array_shift.cc:26-39 | the rotation keeps the length and the multiset of the elements |
| Shift.RotateRightZero | src/array_shift.cc:18-21 | a shift of 0 mod n leaves the array as it was |
| Shift.ArrayShiftRight | src/array_shift.cc:14-40 | nums becomes its old contents rotated right by k mod n, with k taken through size_t first |
| Shift.RotateByStash | src/array_shift.cc:23-39 | stashing the last k, moving the rest back k places and refilling the front rotates the array right by k |
| Shift.ShiftExamples | src/array_shift.cc:54-66 | {3,2,3} by 1 gives {3,3,2}; {0,...,5} by 0 to 11 gives the listed rotations, 6 to 11 repeating 0 to 5 |
| MinRewards.Run | src/array_min_rewards.cc:88-128 | the running total after any prefix of the loop is never below the number of ratings, since it starts there and every delta is a natural number |
| MinRewards.AllocateMinRewardsResult | src/array_min_rewards.cc:23-143 | fewer than two ratings give their count; otherwise the total is never below the number of ratings |
| MinRewards.AllocateMinRewards | src/array_min_rewards.cc:23-143 | the one-pass streak loop with its clean-up computes the result above, at least the number of ratings |
| MinRewards.AllocationValid | src/array_min_rewards.cc:15-20 | the reference allocation (each individual gets the longer of its increasing run into it and decreasing run out of it) gives everyone at least one and a higher-rated neighbour more |
| MinRewards.UpRunBelow | src/array_min_rewards.cc:18-19 | any valid allocation gives each individual at least the length of the increasing run ending there |
| MinRewards.DownRunBelow | src/array_min_rewards.cc:18-19 | any valid allocation gives each individual at least the length of the decreasing run starting there |
| MinRewards.SumMonotone | src/array_min_rewards.cc:20 | a pointwise larger allocation has a larger total |
| MinRewards.AllocationMinimal | src/array_min_rewards.cc:15-20 | no valid allocation has a smaller total than the reference allocation |
| MinRewards.AllocationIs | src/array_min_rewards.cc:20 | the reference total of a row is the sum of the per-individual maxima of the two runs |
| MinRewards.MinRewardsExamplesShort | src/array_min_rewards.cc:154-158 | {1,0,2} gives 5, {1,2,2} gives 4 and {3,3,3,3} gives 4, each equal to the reference minimum |
| MinRewards.MinRewardsExampleTrace | src/array_min_rewards.cc:54-171 | the worked trace {2,3,4,5,3,2,4} gives 15, equal to the reference minimum |
| Sudoku.Validator.constructor | src/array_sudoku.cc:12 | the shared table starts with nine clear flags |
| Sudoku.Validator.InitFoundSet | src/array_sudoku.cc:14-18 | all nine flags are cleared |
| Sudoku.Validator.SetFoundNumber | src/array_sudoku.cc:20-31 | a value outside 1..9 is refused and marks nothing; a digit sets exactly its own flag |
| Sudoku.Validator.WereAllNumbersFound | src/array_sudoku.cc:33-44 | true exactly when no flag is clear |
| Sudoku.Validator.IsSubGridValid | src/array_sudoku.cc:46-63 | true exactly when the 3x3 block at (x, y) holds only digits and every digit 1..9 |
| Sudoku.Validator.IsGridValid | src/array_sudoku.cc:65-110 | true exactly when every block, every row and every column holds only digits and every digit 1..9 |
| Sudoku.MarksStep | src/array_sudoku.cc:29-101 | marking one more digit keeps the flags equal to "this digit occurs among the cells seen" |
| Sudoku.MarksAll | src/array_sudoku.cc:62-105 | after a whole block, row or column, all flags are set exactly when it holds every digit |
| Sudoku.NotDigitInvalid | src/array_sudoku.cc:26-100 | a value outside 1..9 makes the block, row or column invalid, so returning false at once is right |
| Sudoku.BlockCell | src/array_sudoku.cc:54-55 | the nested loop over the block visits its cells row by row |
| Sudoku.ExactlyOnce | src/array_sudoku.cc:48-69 | nine cells holding every digit hold each digit exactly once |
| Sudoku.OnceEachHasAll | src/array_sudoku.cc:48-69 | conversely, nine cells holding each digit once pass the check |
| Sudoku.InvalidExampleOutOfRange | src/array_sudoku.cc:117-126 | the first test grid, with 14 and 0 in it, is invalid |
| Sudoku.InvalidExampleRepeatedInRow | src/array_sudoku.cc:127-136 | the second test grid, with a repeated 9 in a row, is invalid |
| Sudoku.InvalidExampleColumn | src/array_sudoku.cc:137-146 | the third test grid, whose rows are all permutations, is invalid by its first column |
| Sudoku.InvalidExampleBlock | src/array_sudoku.cc:147-156 | the fourth test grid, whose rows and columns are permutations, is invalid by its first block |
| Sudoku.ValidExample | src/array_sudoku.cc:157-166 | the fifth test grid is valid |
| Combinations.Letters | src/array_combinations.cc:13-26 | digits 0 and 1 stand for no letters, every other digit for three or four |
| Combinations.Appended | src/array_combinations.cc:34-40 | one letter yields one string when there are no existing strings, else one per existing string |
| Combinations.ExplodeLength | src/array_combinations.cc:33-41 | explode builds one string per letter times the number of existing strings, or one per letter when there are none |
| Combinations.AppendedMember | src/array_combinations.cc:34-40 | the strings built for one letter end in it, preceded by nothing or by an existing string |
| Combinations.ExplodeMember | src/array_combinations.cc:28-43 | explode builds exactly the strings made of an existing string (or nothing, when there are none) followed by one of the new letters |
| Combinations.Explode | src/array_combinations.cc:30-43 | the nested loops append each letter, in order, to each existing string, in order, with the count above |
| Combinations.DigitValue | src/array_combinations.cc:52-53 | a digit character stands for 0..9 |
| Combinations.PhoneNumberLetters | src/array_combinations.cc:49-57 | the results are folded through explode, one digit's letters at a time |
| Combinations.PhoneCount | src/array_combinations.cc:15-57 | for one or more digits 2..9, the number of combinations is the product of the letter counts |
| Combinations.MulPositive | src/array_combinations.cc:49-57 | a product of positive counts is positive |
| Combinations.OneLetterEachSnoc | src/array_combinations.cc:51-55 | a choice of one letter per digit extends a choice for the earlier digits by a letter of the next |
| Combinations.PhoneStep | src/array_combinations.cc:51-55 | after one more digit, the results are the earlier ones each followed by one of its letters |
| Combinations.PhoneCombinations | src/array_combinations.cc:45-57 | for one or more digits 2..9, the results are exactly the strings taking one letter of each digit in turn |
| Combinations.PhoneEmpty | src/array_combinations.cc:50-56 | no digits give no combinations |
| Combinations.PhoneExampleOne | src/array_combinations.cc:70 | "1" gives nothing |
| Combinations.PhoneExampleTwoThree | src/array_combinations.cc:71 | "23" gives ad, bd, cd, ae, be, ce, af, bf, cf; the driver lists "df" where the code builds "bf", a typo in the expected list, which the driver only prints |
| Combinations.PhoneOneRestarts | src/array_combinations.cc:34-54 | a 1 empties the results, so the next digit starts over from its letters alone: "213" gives d, e, f |
| TwoSum.FindTwoSum | src/array_two_sum.cc:16-40 | the result is empty exactly when no pair adds up to the target; otherwise it is the pair whose second position is the smallest that completes one, with the latest earlier position completing it |
| TwoSum.NeededStep | src/array_two_sum.cc:34-35 | entering a position keeps the map from each needed value to its latest position |
| TwoSum.NotNeeded | src/array_two_sum.cc:27-28 | a value that is not in the map completes no pair with the earlier positions |
| TwoSum.Needed | src/array_two_sum.cc:27-30 | a value in the map completes the pair that is returned |
| TwoSum.TwoSumUnique | src/array_two_sum.cc:22-39 | at most one vector meets the description of the result |
| TwoSum.TwoSumFound | src/array_two_sum.cc:28-39 | there is a result exactly when two values add up to the target |
| TwoSum.TwoSumExamples | src/array_two_sum.cc:54-56 | the driver rows give {0,1}, {1,2} and {0,1} |
| Digits.AddOne | src/math_digits.cc:38-76 | empty digits give empty; all nines give a leading 1 and one zero per digit; otherwise the last digit that is not a 9 is incremented, the nines after it become zeros and the digits before it are kept; the number grows by exactly one |
| Digits.ValueConcat | src/math_digits.cc:32-36 | the number of a concatenation is the first part shifted left by the length of the second, plus the second |
| Digits.ValueNines | src/math_digits.cc:60-62 | n nines stand for 10^n - 1 |
| Digits.ValueZeros | src/math_digits.cc:60-62 | n zeros stand for 0 |
| Digits.ValueSnoc | src/math_digits.cc:35-36 | appending a digit shifts the number left by one place |
| Digits.SplitValue | src/math_digits.cc:50-56 | the number split around one digit |
| Digits.IncrementedValue | src/math_digits.cc:53-62 | incrementing the last digit that is not a 9 and zeroing the nines after it adds one |
| Digits.CarryOutValue | src/math_digits.cc:64-71 | a leading 1 and n zeros stand for one more than n nines |
| Digits.IncrementedDigits | src/math_digits.cc:32-34 | digits in the range 0 to 9 stay in that range |
| Digits.AddedOneValue | src/math_digits.cc:32-37 | the result stands for one more than the input, and is one digit longer exactly when every input digit is 9 |
| Digits.IncrementedUnique | src/math_digits.cc:50-58 | only one position is the last digit that is not a 9, so the result is unique |
| Digits.AddedOneUnique | src/math_digits.cc:38-76 | at most one vector is the result for given digits |
| Digits.AddOneLastExamples | src/math_digits.cc:19-26 | {1,2,3,4} gives {1,2,3,5}; {0,0} gives {0,1} |
| Digits.AddOneSingleExamples | src/math_digits.cc:21-22 | {0} gives {1}; {0,0,1,9} gives {0,0,2,0} |
| Digits.AddOneCarryExamples | src/math_digits.cc:20-25 | {} gives {}; {9} gives {1,0}; {1,9,9} gives {2,0,0}; {9,9,9} gives {1,0,0,0} |
| Permutations.SplitAt | src/math_permutations.cc:39-60 | the scan from the rear stops at the last position whose digit splits with the next one (above it when minimizing, below it when maximizing), or reports none |
| Permutations.SwapPermutes | src/math_permutations.cc:51-53 | swapping two digits keeps the multiset of digits |
| Permutations.HelperAtSplit | src/math_permutations.cc:46-56 | where the scan finds a split, the helper swaps it with the last digit and maximizes after it |
| Permutations.HelperNoSplit | src/math_permutations.cc:44-60 | where the scan finds no split, the helper changes nothing |
| Permutations.HelperLength | src/math_permutations.cc:33-61 | the helper keeps the number of digits |
| Permutations.HelperKeepsPrefix | src/math_permutations.cc:33-61 | the helper leaves the digits before its starting position alone |
| Permutations.NonDecreasingUnchanged | src/math_permutations.cc:44-60 | a non-decreasing input is returned unchanged |
| Permutations.FindSplit | src/math_permutations.cc:39-60 | the scan loop returns the split position the specification describes |
| Permutations.NextPermutationHelper | src/math_permutations.cc:33-61 | the vector is rearranged in place as the recursive helper describes, keeping its multiset of digits |
| Permutations.NextPermutation | src/math_permutations.cc:66-72 | the result is the helper applied to a copy of the digits: same length, same multiset of digits |
| Permutations.HelperCounterexample | src/math_permutations.cc:22-56 | as written, 9102 becomes 9210, which is larger than the input |
| Permutations.HelperCounterexampleCarried | src/math_permutations.cc:24-56 | as written, 9012 becomes 2091 instead of 2910 |
| Permutations.HelperExamples | src/math_permutations.cc:19-21 | as written, the rows 9210, 9201 and 9120 give 9201, 9120 and 9102 |
| Permutations.HelperExamplesLastTwo | src/math_permutations.cc:23-26 | as written, the rows 9021, 2910 and 1920 give 9012, 2901 and 1902 |
| Permutations.ReversePermutes | src/math_permutations.cc:63-65 | reversing keeps the multiset of digits |
| Permutations.LastBelow | src/math_permutations.cc:49-50 | the second scan finds the last digit after the split that is below the split digit; every later one is not below it |
| Permutations.PrevUnfold | src/math_permutations.cc:63-65 | where there is a split, the corrected routine swaps and reverses there |
| Permutations.SwapAndReversePermutes | src/math_permutations.cc:63-65 | swapping and reversing keeps the multiset of digits |
| Permutations.PrevPermutes | src/math_permutations.cc:63-65 | the corrected routine keeps the length and the multiset of digits |
| Permutations.SwapAndReverseShape | src/math_permutations.cc:63-65 | swapping and reversing keeps the digits before the split and puts the chosen digit at the split |
| Permutations.PrevAtSplit | src/math_permutations.cc:63-65 | the corrected result keeps the digits before the split, has the last smaller digit at it and decreasing digits after it |
| Permutations.PrevSmaller | src/math_permutations.cc:63-65 | where the digits descend somewhere, the corrected result is smaller than the input |
| Permutations.PrevNoDescent | src/math_permutations.cc:44-60 | non-decreasing digits are returned unchanged by the corrected routine too |
| Permutations.AdjacentSorted | src/math_permutations.cc:44-60 | neighbours in order put the whole sequence in order |
| Permutations.ReverseNonDecreasing | src/math_permutations.cc:63-65 | reversing non-decreasing digits gives non-increasing ones |
| Permutations.PermutationTail | src/math_permutations.cc:63-65 | two arrangements that agree on a prefix have the same multiset after it |
| Permutations.NotBelowSortedTail | src/math_permutations.cc:63-65 | no arrangement of a non-decreasing tail starts with a smaller digit |
| Permutations.NotAboveSortedTail | src/math_permutations.cc:63-65 | no arrangement of a non-increasing tail starts with a larger digit |
| Permutations.FirstDifference | src/math_permutations.cc:63-65 | two different sequences of one length differ first at some position |
| Permutations.TailAfterSplit | src/math_permutations.cc:44-47 | the digits after the split do not descend |
| Permutations.TailAfterSwap | src/math_permutations.cc:49-53 | after the corrected swap the digits after the split still do not descend |
| Permutations.SmallerDiffersByTheSplit | src/math_permutations.cc:63-65 | an arrangement below the input differs from it first at or before the split |
| Permutations.SplitDigitBound | src/math_permutations.cc:63-65 | such an arrangement has at the split at most the last smaller digit |
| Permutations.AtSplitNotBelow | src/math_permutations.cc:63-65 | decreasing digits after the split are the largest arrangement of them |
| Permutations.LargestBelow | src/math_permutations.cc:63-65 | every arrangement below the input is the corrected result or below it |
| Permutations.PrevLargest | src/math_permutations.cc:63-65 | the corrected result is the largest permutation of the input below it |
| Permutations.FindBelow | src/math_permutations.cc:49-50 | the corrected second scan returns the last digit below the split digit |
| Permutations.ReverseFrom | src/math_permutations.cc:55-56 | the digits after a position are reversed in place and the others kept |
| Permutations.MirroredIsReverse | src/math_permutations.cc:55-56 | a sequence mirroring a tail is its reversal |
| Permutations.PreviousPermutationHelper | src/math_permutations.cc:33-61 | the corrected helper rearranges the vector in place into the largest smaller permutation |
| Permutations.PreviousPermutation | src/math_permutations.cc:66-72 | the corrected routine on a copy of the digits: same length and digits, the largest smaller permutation |
| Permutations.PrevExamplesNineTwo | src/math_permutations.cc:19-20 | 9210 gives 9201 and 9201 gives 9120 |
| Permutations.PrevExamplesCorrected | src/math_permutations.cc:22-24 | 9102 gives 9021 and 9012 gives 2910 |
| Permutations.PrevExamplesLastTwo | src/math_permutations.cc:21-26 | 9120, 9021, 2910 and 1920 give 9102, 9012, 2901 and 1902 |
| MakeChange.RoundedUpLeast | src/math_make_change.cc:38 | for an order that is not negative, the rounded count is the least multiple of three not below it, so fewer than three chickens are extra |
| MakeChange.Fewest | src/math_make_change.cc:37-56 | the reference packing: at most one M box and at most one S box |
| MakeChange.FewestIsBest | src/math_make_change.cc:37-56 | no packing in whole boxes that covers the order holds fewer chickens, and none holding as many uses fewer boxes |
| MakeChange.FewestUnique | src/math_make_change.cc:37-56 | the packing with the fewest extra chickens and then the fewest boxes is unique |
| MakeChange.StepsUseUp | src/math_make_change.cc:40-53 | the three truncating divisions use up any multiple of three exactly, negative ones included |
| MakeChange.Distribute | src/math_make_change.cc:37-56 | three counts holding exactly the rounded order for every count (with C++ truncating division and remainder), and for an order that is not negative the fewest-extra, fewest-boxes packing |
| MakeChange.DistributeExamplesLarge | src/math_make_change.cc:14-21 | the table rows for 29 down to 7 |
| MakeChange.DistributeExamplesSmall | src/math_make_change.cc:22-27 | the table rows for 6 down to 1 |
| BoundingBox.GetBoundingBox | src/math_points_bounding_box.cc:53-70 | the zero box for no points; otherwise a box that encloses every point and whose every side lies on some point, so each corner coordinate is the minimum or maximum over the points |
| BoundingBox.BoxOfIsBoundingBox | src/math_points_bounding_box.cc:59-67 | the reference min/max fold over the points meets that description for every non-empty input |
| BoundingBox.BoundingBoxUnique | src/math_points_bounding_box.cc:53-70 | at most one box meets the description |
| BoundingBox.BoundingBoxOrder | src/math_points_bounding_box.cc:80-81 | the result depends only on which points occur, not on their order or repetitions |
| BoundingBox.SinglePoint | src/math_points_bounding_box.cc:79 | a single point gives the degenerate box on that point |
| BoundingBox.BoxOfSpread | src/math_points_bounding_box.cc:77 | the reference box of the nine scattered points of the first row |
| BoundingBox.BoundingBoxExampleSpread | src/math_points_bounding_box.cc:77 | the first table row |
| BoundingBox.BoundingBoxExamplesFew | src/math_points_bounding_box.cc:78-81 | the rows with no point, one point and two points in either order |
| Bitwise.Sum | src/bitwise_ops.cc:24-52 | reference definition of the column loop: the digit and carry of each column from the carry before it and the two input bits |
| Bitwise.SumColumns | src/bitwise_ops.cc:24-52 | the reference digits, with the final carry as the next power of two, add up to the value of the last j characters of a plus those of b |
| Bitwise.ColumnStep | src/bitwise_ops.cc:25-51 | writing one column's sum bit in front keeps the digits and carry equal to the sum of the suffixes consumed |
| Bitwise.AddDigits | src/bitwise_ops.cc:25-48 | each cursor that is still inside its string moves one place left, and sum bit plus twice the carry equals carry in plus the two digits (a '1' counts one, anything else zero) |
| Bitwise.WriteColumn | src/bitwise_ops.cc:25-51 | one pass of the loop writes the next column's digit one place further left and keeps the cursors and the written suffix in step with the reference |
| Bitwise.AddColumns | src/bitwise_ops.cc:16-52 | the result is one longer than the longer input and holds exactly the reference digits, and the carry is the reference carry |
| Bitwise.NoCarryLeft | src/bitwise_ops.cc:19 | with one extra column no carry is left over and the digits hold the exact sum |
| Bitwise.LeadingDigit | src/bitwise_ops.cc:54-57 | dropping a leading zero keeps the value; a leading one means every digit is needed |
| Bitwise.Finish | src/bitwise_ops.cc:54-59 | the columns with one leading zero dropped (if any) form a numeral of the sum, one longer than the longer input exactly when the sum does not fit in that many bits |
| Bitwise.BinaryAdd | src/bitwise_ops.cc:15-60 | the result is a numeral of zeros and ones whose value is the sum of the inputs' values, with no leading zero unless that is needed for the longer input's length |
| Bitwise.BinaryUnique | src/bitwise_ops.cc:15-60 | two numerals of equal length and value are equal, so the sum's numeral is determined |
| Bitwise.BinaryAddExamples | src/bitwise_ops.cc:91-92 | "11" + "1" is "100" and "1010" + "1011" is "10101" |
| Bitwise.BinValueBound | src/bitwise_ops.cc:19 | a numeral of n digits is worth less than 2^n, which is why one extra column suffices |
| BitCount.CountBitsSet | src/bitwise_ops.cc:65-74 | the count is the number of one bits among the 32 bits of n, between 0 and 32 |
| BitCount.BitsSetBound | src/bitwise_ops.cc:65-74 | no more bits are set than there are bits |
| BitCount.BitsSetComplement | src/bitwise_ops.cc:65-74 | every bit is set in n or in its complement, never both |
| BitCount.CountBitsSetExamples | src/bitwise_ops.cc:94-96 | 0b1011 has 3 bits set, 0b10000000 has 1, and all bits but bit 1 gives 31 |
| HashmapStrings.PatternMapping | src/hashmap_strings.cc:19-22 | two sequences of equal length have the same shape exactly when some one-to-one mapping sends each element to its counterpart, which is what the pair of maps stands for |
| HashmapStrings.Bind | src/hashmap_strings.cc:28-52 | one pair is accepted exactly when the pairs so far plus this one still have the same shape, and then both maps pair up exactly the elements seen so far |
| HashmapStrings.AreIsomorphic | src/hashmap_strings.cc:14-56 | true exactly when the strings have equal length and repeat a letter at exactly the same positions |
| HashmapStrings.PatternSymmetric | src/hashmap_strings.cc:11 | being isomorphic does not depend on which string comes first |
| HashmapStrings.IsomorphicExamples | src/hashmap_strings.cc:214-218 | a/b, egg/add and paper/title are isomorphic; foo/bar and badc/baba are not |
| HashmapStrings.WordEnd | src/hashmap_strings.cc:85-88 | the first space at or after the index, or the end of the string, with no space before it |
| HashmapStrings.NextWord | src/hashmap_strings.cc:84-90 | the word read is the first of the words from the index on, and the rest of them start at the returned index |
| HashmapStrings.MatchNext | src/hashmap_strings.cc:77-109 | one pass either pairs the next letter with the next word, keeping the maps in step with the letters and words read, or finds that the pattern cannot fit the words |
| HashmapStrings.OutOfWords | src/hashmap_strings.cc:78-82 | running out of words while letters remain means the pattern does not fit |
| HashmapStrings.AllLetters | src/hashmap_strings.cc:111-113 | after the last letter, the pattern fits exactly when no word is left over |
| HashmapStrings.WordsFollowPattern | src/hashmap_strings.cc:68-114 | true exactly when the pattern and the space-separated words have equal length and repeat at exactly the same positions |
| HashmapStrings.PatternExampleFits | src/hashmap_strings.cc:220 | "aba" fits "foo bar foo" |
| HashmapStrings.PatternExampleBreaks | src/hashmap_strings.cc:221 | "aba" does not fit "foo bar bar" |
| HashmapStrings.PatternExamplesCount | src/hashmap_strings.cc:228-230 | "aa" does not fit three words and "aaaa" does not fit one |
| HashmapStrings.LetterCounts | src/hashmap_strings.cc:126-131 | the map counts each letter exactly as often as it occurs in s, and a missing letter counts zero |
| HashmapStrings.Overdrawn | src/hashmap_strings.cc:135-140 | a letter whose count goes below zero occurs more often in t than in s, so t is no anagram |
| HashmapStrings.IsAnagramCheck | src/hashmap_strings.cc:119-144 | true exactly when t holds the same letters as s, each as often |
| HashmapStrings.AnagramNagaram | src/hashmap_strings.cc:232 | "nagaram" is an anagram of "anagram" |
| HashmapStrings.NotAnagramExamples | src/hashmap_strings.cc:233-234 | "car" is no anagram of "rat" and "b" none of "ab" |
| HashmapStrings.AllWordsAppend | src/hashmap_strings.cc:158 | pushing a word onto one bucket adds exactly that word once to the words held |
| HashmapStrings.JoinGroup | src/hashmap_strings.cc:157-160 | a word that is an anagram of a bucket's key may join that bucket and the buckets still form a grouping of the words so far |
| HashmapStrings.NewGroup | src/hashmap_strings.cc:163-165 | a word that is no anagram of any key starts its own bucket and the buckets still form a grouping |
| HashmapStrings.AddWord | src/hashmap_strings.cc:155-165 | after one word the buckets form a grouping of the words so far plus that word |
| HashmapStrings.GroupAnagrams | src/hashmap_strings.cc:150-174 | no group is empty, each group's words are anagrams of its first word, no two groups' first words are anagrams, and the groups hold every word as often as the input does |
| HashmapStrings.AllWordsMember | src/hashmap_strings.cc:168-171 | a word is among the words of the groups exactly when some group holds it |
| HashmapStrings.GroupIsClass | src/hashmap_strings.cc:150-174 | each group holds exactly the input words that are anagrams of its first word |
| HashmapStrings.GroupingsAgree | src/hashmap_strings.cc:150-174 | the grouping is determined up to the order of groups: every group of one grouping has the same words as some group of any other |
| HashmapStrings.EatTeaAte | src/hashmap_strings.cc:236 | "tea" and "ate" are anagrams of "eat" |
| HashmapStrings.TanNat | src/hashmap_strings.cc:236 | "nat" is an anagram of "tan" |
| HashmapStrings.Marks | src/hashmap_strings.cc:236 | the letters b, e and n tell the three anagram classes of the first row apart |
| HashmapStrings.GroupOfBat | src/hashmap_strings.cc:236 | in the first row "bat" is alone in its group |
| HashmapStrings.GroupOfEat | src/hashmap_strings.cc:236 | in the first row "eat" is grouped with exactly "tea" and "ate" |
| HashmapStrings.GroupOfTan | src/hashmap_strings.cc:236 | in the first row "tan" is grouped with exactly "nat" |
| HashmapStrings.AllWordsSize | src/hashmap_strings.cc:150-174 | since no group is empty, there are at least as many words as groups |
| HashmapStrings.SingleWordGroup | src/hashmap_strings.cc:150-174 | a single word makes exactly one group, holding just that word |
| HashmapStrings.GroupOfEmptyWord | src/hashmap_strings.cc:237 | the empty word makes one group holding the empty word; the driver lists one empty group, {{}}, which the code does not return (the driver only prints both) |
| HashmapStrings.GroupOfA | src/hashmap_strings.cc:238 | "a" makes the one group {"a"}, as the driver expects |
| HashmapSequence.Extend | src/hashmap_sequence.cc:39-80 | for a value not seen before, the new length is that of the maximal run through it after adding it, and afterwards both ends of every maximal run again hold that run's length, with exactly the values seen holding a positive entry |
| HashmapSequence.Neighbours | src/hashmap_sequence.cc:39-40 | the entries read at n - 1 and n + 1 are the lengths of the maximal runs ending just before and starting just after n, zero when there is none |
| HashmapSequence.Join | src/hashmap_sequence.cc:72 | a new value between two maximal runs of lengths p and q makes one maximal run of p + 1 + q |
| HashmapSequence.SameRun | src/hashmap_sequence.cc:54-75 | two maximal runs that overlap are the same run, so the ends updated belong to the joined run |
| HashmapSequence.EndsBefore | src/hashmap_sequence.cc:65 | the only maximal run reaching up to n - 1 is the one whose start is n - prev |
| HashmapSequence.StartsAfter | src/hashmap_sequence.cc:54 | the only maximal run starting at n + 1 is the one whose end is n + next |
| HashmapSequence.ExtendPositive | src/hashmap_sequence.cc:35-37 | after a pass no entry is negative and exactly the values seen have a positive entry, so a repeated value is skipped |
| HashmapSequence.ExtendLeft | src/hashmap_sequence.cc:43-79 | after a pass the entry at the start of each maximal run is that run's length |
| HashmapSequence.ExtendRight | src/hashmap_sequence.cc:43-79 | after a pass the entry at the end of each maximal run is that run's length |
| HashmapSequence.LongestStep | src/hashmap_sequence.cc:80 | after a value joins, no run is longer than the larger of the previous longest and the run through the new value |
| HashmapSequence.LongestConsecutiveSequence | src/hashmap_sequence.cc:30-84 | the result is the length of a run of consecutive integers all present in nums and no such run is longer; it is zero exactly for an empty array |
| HashmapSequence.LongestUnique | src/hashmap_sequence.cc:24-27 | the longest length is determined by the values, whatever their order or repetitions |
| HashmapSequence.SequenceExampleFour | src/hashmap_sequence.cc:16 | 100, 4, 200, 1, 3, 2 gives 4 |
| HashmapSequence.SequenceExampleNine | src/hashmap_sequence.cc:17 | 0, 3, 7, 2, 5, 8, 4, 6, 0, 1 gives 9 |
| HashmapSequence.SequenceExampleThree | src/hashmap_sequence.cc:18 | 1, 2, 0, 1 gives 3 |
| HashmapDuplicates.AnyClose | src/hashmap_duplicates.cc:39-45 | true exactly when one of the earlier positions holding the value lies at most k (converted to size_t) before i, in whatever order the set is visited |
| HashmapDuplicates.ContainsDuplicate | src/hashmap_duplicates.cc:30-53 | true exactly when two positions j < i hold the same value with i - j at most k converted to size_t |
| HashmapDuplicates.NearDuplicateSymmetric | src/hashmap_duplicates.cc:25-27 | that is the same as two different positions with the same value and absolute distance at most k |
| HashmapDuplicates.DistinctHasNone | src/hashmap_duplicates.cc:51-52 | an array without repeated values, the empty one included, gives false |
| HashmapDuplicates.NegativeKMatchesAny | src/hashmap_duplicates.cc:42 | a negative k wraps to a size_t above any distance, so then any repeated value gives true |
| HashmapDuplicates.NearDuplicateMonotone | src/hashmap_duplicates.cc:42 | a larger k finds every pair a smaller one does |
| HashmapDuplicates.DuplicateExamples | src/hashmap_duplicates.cc:17-19 | the rows {1,2,3,1} with k 3 and {1,0,1,1} with k 1 give true, and {1,2,3,1,2,3} with k 2 gives false |
| HappyNumber.SquareSum | src/hashmap_happy_number.cc:38-45 | the sum of the squares of the decimal digits, taking digits with C++ truncating division, is never negative |
| HappyNumber.SumOfSquares | src/hashmap_happy_number.cc:39-45 | the inner loop computes the square sum of n's digits, negative n included |
| HappyNumber.SquareSumBound | src/hashmap_happy_number.cc:38-45 | a number of at most d digits has a square sum of at most 81 d |
| HappyNumber.StepBound | src/hashmap_happy_number.cc:45 | one step takes any int below 1000 and keeps numbers below 1000 there, so the visited set cannot grow for ever |
| HappyNumber.IterateAdd | src/hashmap_happy_number.cc:29-46 | taking a + b steps is taking a steps and then b more |
| HappyNumber.Cycle | src/hashmap_happy_number.cc:30-35 | a number that comes back before 1 was reached recurs for ever and 1 is never reached |
| HappyNumber.UnvisitedAdd | src/hashmap_happy_number.cc:36 | inserting a number takes it off the numbers below 1000 still unvisited |
| HappyNumber.IsHappy | src/hashmap_happy_number.cc:24-50 | the loop ends for every int, with true exactly when some number of steps reaches 1 |
| HappyNumber.OneStays | src/hashmap_happy_number.cc:29 | once 1 is reached every later step stays at 1 |
| HappyNumber.NineteenIsHappy | src/hashmap_happy_number.cc:17-21 | 19 goes to 82, 68, 100 and then 1 |
| HappyNumber.TwoIsNotHappy | src/hashmap_happy_number.cc:61 | 2 comes back to 4 after eight more steps and never reaches 1 |
| HashmapRansom.Short | src/hashmap_ransom.cc:32-34 | a note letter whose remaining count goes below zero occurs more often in the note than in the letters |
| HashmapRansom.CanConstruct | src/hashmap_ransom.cc:15-39 | true exactly when every character occurs in the note no more often than in the letters |
| HashmapRansom.CanBuildBasics | src/hashmap_ransom.cc:29 | an empty note can always be built, and so can any anagram of the letters |
| HashmapRansom.CanBuildMore | src/hashmap_ransom.cc:24-26 | adding letters never turns a buildable note into one that is not |
| HashmapRansom.RansomExamples | src/hashmap_ransom.cc:49-51 | a from b and aa from ab cannot be built; aa from aab can |
| Palindromes.DigitChar | src/string_palindromes.cc:45 | the digit_to_char table maps each digit to the character that stands for it |
| Palindromes.DigitCounts | src/string_palindromes.cc:47-52 | entry d is how often the character of digit d occurs in the string |
| Palindromes.HalfDigits | src/string_palindromes.cc:70-82 | the half palindrome holds digits only, never increasing, and does not start with 0 |
| Palindromes.HalfCount | src/string_palindromes.cc:70-82 | the half palindrome holds each digit as often as its pairs: half its count, and none for 0 while the half is still empty |
| Palindromes.MiddleIsLargest | src/string_palindromes.cc:83-89 | the middle digit has a copy left over after its pairs, and no larger digit has one; there is no middle digit only when no digit has one |
| Palindromes.LeftoverRange | src/string_palindromes.cc:72-82 | after the pairs are taken, no count is negative, and at most one copy is left, except of zeros that could not lead the number |
| Palindromes.CharsCount | src/string_palindromes.cc:95-98 | the left half written out holds each digit's character as often as the half holds the digit, and nothing else |
| Palindromes.MirrorCount | src/string_palindromes.cc:106-109 | the right half written out holds the same characters, just as often |
| Palindromes.MirrorReverses | src/string_palindromes.cc:94-109 | the right half is the left half read backwards |
| Palindromes.CountDigit | src/string_palindromes.cc:92-111 | the result holds digit d twice per copy in the half, plus one when d is the middle digit |
| Palindromes.CountOther | src/string_palindromes.cc:92-111 | the result holds no character other than digits |
| Palindromes.Shape | src/string_palindromes.cc:92-111 | a descending half without a leading zero yields a palindrome whose first half descends and which starts with 0 only when it is "0" |
| Palindromes.LargestCount | src/string_palindromes.cc:43-112 | in the result each digit occurs twice per pair taken, plus one if it is the middle digit |
| Palindromes.LargestDigitsOnly | src/string_palindromes.cc:43-112 | the result holds digits only |
| Palindromes.LargestShape | src/string_palindromes.cc:39-43 | the result is a palindrome, its first half descends, and it has no leading zero unless it is "0" |
| Palindromes.LargestLength | src/string_palindromes.cc:92-111 | the result is twice as long as the half palindrome, plus one for a middle digit, which sits at its centre |
| Palindromes.BuildLength | src/string_palindromes.cc:92-111 | the assembled string has twice the length of the half plus the middle digit, at its centre |
| Palindromes.LargestWithin | src/string_palindromes.cc:39-40 | no digit is used more often than it occurs in the input |
| Palindromes.LargestEven | src/string_palindromes.cc:39-90 | a result of even length uses every digit of the input |
| Palindromes.LargestOdd | src/string_palindromes.cc:83-89 | a result of odd length uses every copy of each digit larger than its middle digit |
| Palindromes.LargestNearlyAll | src/string_palindromes.cc:70-89 | once any pair is used, each digit has at most one copy left unused |
| Palindromes.LargestShort | src/string_palindromes.cc:73-77 | a result of at most one digit means no digit from 1 to 9 occurs twice |
| Palindromes.CountDigits | src/string_palindromes.cc:47-52 | the counting loop leaves the count of each digit in a new array |
| Palindromes.PairDigit | src/string_palindromes.cc:71-89 | one pass of the digit loop appends the pairs of d to the half and picks d as the middle digit exactly as the reference definitions do, leaving the counters of smaller digits alone |
| Palindromes.PairUp | src/string_palindromes.cc:70-90 | the digit loop from 9 down to 0 builds the half palindrome and chooses the middle digit of the reference definitions |
| Palindromes.Assemble | src/string_palindromes.cc:92-111 | the output is the half's characters, the middle digit if any, then the half's characters backwards |
| Palindromes.LargestPalindrome | src/string_palindromes.cc:43-112 | the result is the palindrome the reference definitions describe for the digit counts of the input |
| Palindromes.PairAroundMiddle | src/string_palindromes.cc:19 | "9888" gives "898" |
| Palindromes.NoPairs | src/string_palindromes.cc:24 | "12345" gives "5" |
| Palindromes.ZerosOnly | src/string_palindromes.cc:27 | "0000" gives "0" |
| ParenParsing.FirstDeletedMembers | src/string_paren_parsing.cc:33-47 | the first loop deletes exactly the non-'(' characters met while its open counter is zero |
| ParenParsing.LastOpens | src/string_paren_parsing.cc:52-57 | the backward loop deletes only characters '(' below where it starts |
| ParenParsing.LastOpensRightmost | src/string_paren_parsing.cc:52-57 | the characters '(' deleted by the backward loop are the last ones: every later '(' is deleted too |
| ParenParsing.DropLastOpens | src/string_paren_parsing.cc:33-57 | without the closers the first loop drops and the last r unmatched openers, a prefix never dips below zero and ends r below the open count |
| ParenParsing.FixedBalanced | src/string_paren_parsing.cc:27-68 | the result is balanced: no prefix closes more than it opens and the whole closes all it opens |
| ParenParsing.KeepIsKept | src/string_paren_parsing.cc:61-65 | the copying loop spells out the input at increasing positions that are not deleted |
| ParenParsing.FixedIsSubsequence | src/string_paren_parsing.cc:27-68 | the result is the input with some characters left out, order kept |
| ParenParsing.DeletedKinds | src/string_paren_parsing.cc:33-57 | a deleted character is either a closer met with nothing open or a '(' after which every '(' is deleted |
| ParenParsing.LastOpensClosersAlike | src/string_paren_parsing.cc:52-57 | the backward loop treats every non-'(' character alike |
| ParenParsing.ClosersAlike | src/string_paren_parsing.cc:34-46 | exchanging one non-'(' character for another deletes the same indices |
| ParenParsing.OpenIsDepth | src/string_paren_parsing.cc:33-47 | on a string no prefix of which dips below zero, the open counter is the depth of the prefix |
| ParenParsing.KeepNone | src/string_paren_parsing.cc:61-65 | with nothing deleted the copying loop returns its input |
| ParenParsing.BalancedUnchanged | src/string_paren_parsing.cc:27-68 | a balanced input has nothing deleted and comes back unchanged |
| ParenParsing.FixedIdempotent | src/string_paren_parsing.cc:27-68 | fixing a fixed string changes nothing |
| ParenParsing.MarkClosers | src/string_paren_parsing.cc:33-47 | the first loop ends with the open counter and the deleted closers of the reference definitions |
| ParenParsing.MarkOpens | src/string_paren_parsing.cc:52-57 | the backward loop adds the last open-counter many characters '(' to the deleted indices |
| ParenParsing.CopyKept | src/string_paren_parsing.cc:61-65 | the copying loop keeps, in order, the characters whose indices are not deleted |
| ParenParsing.FixUnbalancedString | src/string_paren_parsing.cc:27-68 | the result is the reference fixed string, balanced and a subsequence of the input |
| ParenParsing.CloserBeforeOpener | src/string_paren_parsing.cc:17 | ")(" gives "" |
| ParenParsing.UnclosedOpener | src/string_paren_parsing.cc:18 | "(()" gives "()" |
| ParenParsing.LoneCloser | src/string_paren_parsing.cc:19 | ")" gives "" |
| ParenParsing.LoneOpener | src/string_paren_parsing.cc:20 | "(" gives "" |
| ParenParsing.LongFirstLoop | src/string_paren_parsing.cc:21 | on "()())((((())" the first loop leaves three openers and deletes the closer at index 4 |
| ParenParsing.LongSecondLoop | src/string_paren_parsing.cc:21 | on "()())((((())" the backward loop deletes the openers at 7, 8 and 9 |
| ParenParsing.LongExample | src/string_paren_parsing.cc:21 | "()())((((())" gives "()()(())" |
| WordUnderCursor.WordEnd | src/string_find_word_under_cursor.cc:25-28 | the forward walk stops at the first space at or after its start, or at the end, passing only word characters |
| WordUnderCursor.WordStart | src/string_find_word_under_cursor.cc:30-33 | the backward walk stops just after the last space before its start, or at the start, passing only word characters |
| WordUnderCursor.FindWordUnderCursor | src/string_find_word_under_cursor.cc:23-39 | the result is the word under the cursor of the reference definition, empty for a cursor past the end |
| WordUnderCursor.WordHasNoSpace | src/string_find_word_under_cursor.cc:25-33 | the result contains no space |
| WordUnderCursor.WordIsSlice | src/string_find_word_under_cursor.cc:23-39 | within the buffer the result is a slice around the cursor bounded by a space or an edge on each side |
| WordUnderCursor.WordIsLongest | src/string_find_word_under_cursor.cc:23-39 | every space-free slice around the cursor lies within the result's bounds |
| WordUnderCursor.WordIs | src/string_find_word_under_cursor.cc:23-39 | a space-free slice around the cursor bounded by spaces or edges is the result |
| WordUnderCursor.WordEmpty | src/string_find_word_under_cursor.cc:34-37 | the result is empty exactly when the cursor is past the end or neither the character at the cursor nor the one before it is a word character |
| WordUnderCursor.LoremRows | src/string_find_word_under_cursor.cc:49-52 | cursors 2, 0, 4 and 5 give "lorem" |
| WordUnderCursor.IpsumRows | src/string_find_word_under_cursor.cc:53-56 | cursors 6, 9, 10 and 11 give "ipsum" |
| WordUnderCursor.SomethingRows | src/string_find_word_under_cursor.cc:57-59 | cursors 12, 15 and 21 give "something" |
| WordUnderCursor.ElseRows | src/string_find_word_under_cursor.cc:60-61 | cursors 22 and 26 give "else" |
| WordUnderCursor.NoWordRows | src/string_find_word_under_cursor.cc:63-66 | an empty buffer and cursors 12 and 13 of "word1 word2   word3" give "" |
| WordUnderCursor.Word2Rows | src/string_find_word_under_cursor.cc:67 | cursor 11 of "word1 word2   word3" gives "word2" |
| WordUnderCursor.Word3Rows | src/string_find_word_under_cursor.cc:68 | cursor 14 of "word1 word2   word3" gives "word3" |
| UdpBuffer.RunMember | src/udp_buffer.cc:34-41 | every number the contiguous-count loop passes has been received and is at most the latest number |
| UdpBuffer.RunEnd | src/udp_buffer.cc:34-41 | the loop stops at the first number not received or past the latest number |
| UdpBuffer.RunStopsAtGap | src/udp_buffer.cc:34-41 | the loop never passes a number that has not been received |
| UdpBuffer.RunIs | src/udp_buffer.cc:31-42 | a received run within the latest number that ends at a gap or past the latest number is the one the loop counts |
| UdpBuffer.CountIsRun | src/udp_buffer.cc:31-42 | under the invariant, the contiguous count is the run of received numbers from the window start |
| UdpBuffer.ReceivedValid | src/udp_buffer.cc:44-53 | a receive keeps every number of the contiguous run received and the run maximal, and never decreases the contiguous count |
| UdpBuffer.SentValid | src/udp_buffer.cc:55-75 | a delivery keeps the invariant, empties the run and moves the window start to where the run ended |
| UdpBuffer.GapHoldsBack | src/udp_buffer.cc:34-41 | while a number past the run is missing, receiving any other number leaves the run short of it |
| UdpBuffer.SlotKept | src/udp_buffer.cc:45-48 | writing one packet's slot leaves every other slot's bytes unchanged |
| UdpBuffer.WriteKeepsStored | src/udp_buffer.cc:44-49 | after a write, the received number's slot holds its bytes and every other received slot keeps its bytes |
| UdpBuffer.EraseKeepsStored | src/udp_buffer.cc:68-71 | erasing the delivered bytes while advancing the window start keeps every later slot's bytes |
| UdpBuffer.GrowKeepsStored | src/udp_buffer.cc:27-29 | growing the buffer keeps every slot's bytes |
| UdpBuffer.PrefixIsPayloads | src/udp_buffer.cc:60-65 | the first count slots hold the bytes of the packets numbered from the window start, in order |
| UdpBuffer.ReorderBuffer.InitBuffer | src/udp_buffer.cc:27-29 | the buffer is resized to 256 bytes and nothing else changes |
| UdpBuffer.ReorderBuffer.UpdateWindowContiguousSequenceNumbers | src/udp_buffer.cc:31-42 | the contiguous count grows by the run of received numbers that follows it, and nothing else changes |
| UdpBuffer.ReorderBuffer.WriteSlot | src/udp_buffer.cc:46-48 | the packet's bytes are written from the given index on and no other byte changes |
| UdpBuffer.ReorderBuffer.ReceiveFromNetwork | src/udp_buffer.cc:44-53 | the packet's bytes go to its slot and nowhere else, its number is recorded, the latest number becomes the maximum, and the run is extended, keeping the invariant |
| UdpBuffer.ReorderBuffer.CountFits | src/udp_buffer.cc:60-68 | the bytes of the contiguous run lie within the buffer |
| UdpBuffer.ReorderBuffer.SendToListenerKeepingSize | src/udp_buffer.cc:55-75 | the delivery of SendToListener, with the same output and bookkeeping, but the buffer keeps its size, so the invariant holds and later slots keep fitting |
| UdpBuffer.InOrderStep | src/udp_buffer.cc:44-75 | receiving the packet at the window start with an empty run, then delivering, moves the window one number on and leaves the run empty |
| UdpBuffer.InOrderAsWritten | src/udp_buffer.cc:27-75 | after InitBuffer, 128 packets received in order and each delivered at once leave the window at 128 and an empty byte buffer, so the slot of packet 128 lies past its end |
| UdpBuffer.InOrderKeepingSize | src/udp_buffer.cc:27-75 | with deliveries that keep the buffer's size, any number of packets received in order and each delivered at once leave the window past them and the buffer at 256 bytes |
| UdpBuffer.ReorderBuffer.SendToListener | src/udp_buffer.cc:55-75 | with an empty run nothing changes; otherwise the output is the first count·2 buffered bytes, which are the run's packets in order, they are erased, the window advances by the count and the count becomes 0 |
| UdpBuffer.TestPacket | src/udp_buffer.cc:77-85 | a test packet carries its number, cut to a byte, in both bytes |
| UdpBuffer.FirstPacket | src/udp_buffer.cc:122 | packet 0 makes the run one long |
| UdpBuffer.NextThreeInOrder | src/udp_buffer.cc:123-128 | packets 1 to 3 give window 0, latest 3, count 4 |
| UdpBuffer.FirstDelivery | src/udp_buffer.cc:132-135 | delivery gives window 4, latest 3, count 0 |
| UdpBuffer.GapAtFive | src/udp_buffer.cc:138-159 | packets 4, 6, 8 and 7 give window 4, latest 8, count 1 |
| UdpBuffer.GapFilled | src/udp_buffer.cc:162-165 | packet 5 gives window 4, latest 8, count 5 |
| UdpBuffer.SecondDelivery | src/udp_buffer.cc:168-177 | delivery gives window 9, latest 8, count 0, and packet 10 gives window 9, latest 10, count 0 |
| Redis.NextWord | src/hashmap_redis.cc:17-23 | the walk stops at WordEnd, the first space at or after the start or the end (with the terminating '\0' read at index size), and the word is the slice in between |
| Redis.WordAfter | src/hashmap_redis.cc:49 | next_word(cmd, ++i) is defined exactly when i + 1 is at most the length, and then reads the run of non-spaces from i + 1 |
| Redis.RestAfter | src/hashmap_redis.cc:57 | substr(i + 1, size - 1 - i) is defined exactly when i + 1 is at most the length, and then is everything after index i |
| Redis.ListFields | src/hashmap_redis.cc:98-106 | the JSON is "{ ", one `"f": "v", ` entry per field in the order the map hands them out, then "}"; every field appears exactly once with its value |
| Redis.Server.constructor | src/hashmap_redis.cc:12-13 | both stores start empty |
| Redis.Server.Run | src/hashmap_redis.cc:41-110 | the reply and the new stores are Apply of the parsed command to the old stores |
| Redis.Server.KeyCommand | src/hashmap_redis.cc:48-68 | get, del and hgetall answer and update as Apply says, out of range when the key would be read past the end |
| Redis.Server.SetCommand | src/hashmap_redis.cc:55-59 | set stores the rest of the command under the key and answers OK, out of range when there is no separator after the key |
| Redis.Server.FieldCommand | src/hashmap_redis.cc:69-91 | hget and hset answer and update as Apply says |
| Redis.ReadsOperation | src/hashmap_redis.cc:42-43 | a command starting with a word followed by a space or the end runs that word's branch |
| Redis.ReadsWordAfter | src/hashmap_redis.cc:17-23 | next_word after a separator reads back a word without spaces that is followed by a space or the end |
| Redis.ParseKeyCommand | src/hashmap_redis.cc:48-49 | "get k", "del k" and "hgetall k" parse to that operation on k |
| Redis.SetArguments | src/hashmap_redis.cc:56-57 | the set branch reads the key and takes everything after it and one space as the value |
| Redis.ParseSet | src/hashmap_redis.cc:55-57 | "set k v" parses to set k to v, whatever spaces v holds |
| Redis.HGetArguments | src/hashmap_redis.cc:70-71 | the hget branch reads the key and then the field |
| Redis.ParseHGet | src/hashmap_redis.cc:69-71 | "hget k f" parses to hget of k and f |
| Redis.HSetArguments | src/hashmap_redis.cc:82-84 | the hset branch reads key and field and takes everything after the field and one space as the value |
| Redis.ParseHSet | src/hashmap_redis.cc:81-84 | "hset k f v" parses to hset of k, f and v, whatever spaces v holds |
| Redis.ParseBareOperation | src/hashmap_redis.cc:49 | an operation with nothing after it reads past the end of the command |
| Redis.ParseMissingArgument | src/hashmap_redis.cc:56-57 | "set k", "hget k" and "hset k" read past the end of the command |
| Redis.UnknownOperation | src/hashmap_redis.cc:109 | an unknown operation answers "" and leaves both stores unchanged |
| Redis.SetThenGet | src/hashmap_redis.cc:55-59 | set answers OK and a following get answers the value set |
| Redis.GetAnswers | src/hashmap_redis.cc:48-54 | get answers the stored value, "" for an absent key, and changes nothing |
| Redis.DelRemoves | src/hashmap_redis.cc:60-68 | del answers the previous value or "", removes the key, keeps every other key and value, and a following get answers "" |
| Redis.LastSetWins | src/hashmap_redis.cc:58 | two sets of one key leave the stores as the second set alone does |
| Redis.HSetThenHGet | src/hashmap_redis.cc:81-91 | hset answers OK, a following hget answers the value, and the key's other fields keep their values |
| Redis.HGetMissing | src/hashmap_redis.cc:72-79 | hget of a missing key or field answers "" and changes nothing |
| Redis.StoresIndependent | src/hashmap_redis.cc:12-13 | get, set and del never touch the field store, hget, hset and hgetall never touch the value store, and only set, del and hset change anything |
| Redis.EntriesAppend | src/hashmap_redis.cc:99-105 | the entries of two listings one after the other are the entries of each, concatenated |
| Redis.EntryAt | src/hashmap_redis.cc:99-105 | each pair of a listing contributes its entry between the entries before and after it |
| Redis.HGetAllShowsFields | src/hashmap_redis.cc:92-107 | hgetall of an absent key answers ""; otherwise each field of the key appears as its own entry between "{ " and "}" |
| Redis.TwoFieldsJson | src/hashmap_redis.cc:98-106 | two fields give "{ ", the first entry, the second entry and "}" |
| Redis.SetRow | src/hashmap_redis.cc:121 | set some_key answers OK and stores "some value" |
| Redis.GetRow | src/hashmap_redis.cc:122 | get some_key answers "some value" |
| Redis.GetMissingRow | src/hashmap_redis.cc:123 | get some_missing_key answers "" |
| Redis.DelRow | src/hashmap_redis.cc:124 | del some_key answers "some value" and empties the store |
| Redis.GetDeletedRow | src/hashmap_redis.cc:125 | get some_key then answers "" |
| Redis.SetOtherRow | src/hashmap_redis.cc:126 | set some_key stores "some other value" |
| Redis.SetAnotherRow | src/hashmap_redis.cc:127 | set some_key again overwrites it with "another value" |
| Redis.GetAnotherRow | src/hashmap_redis.cc:128 | get some_key answers "another value" |
| Redis.HSetFirstRow | src/hashmap_redis.cc:130 | hset h_key field1 creates h_key with that field |
| Redis.HSetSecondRow | src/hashmap_redis.cc:131 | hset h_key field2 adds the second field and keeps the first |
| Redis.HGetFirstRow | src/hashmap_redis.cc:132 | hget h_key field1 answers "some field value 1" |
| Redis.HGetSecondRow | src/hashmap_redis.cc:133 | hget h_key field2 answers "some field value 2" |
| Redis.HGetMissingFieldRow | src/hashmap_redis.cc:134 | hget of a missing field answers "" |
| Redis.HGetMissingKeyRow | src/hashmap_redis.cc:135 | hget of a missing key answers "" |
| Redis.HGetAllRow | src/hashmap_redis.cc:136 | hgetall h_key, with the fields handed out as field1 then field2, answers "{ " then the two entries then "}" |
| BackupSets.BelowIrreflexive | src/hashmap_backup_set.cc:33 | no hash orders before itself in the std::map's key order |
| BackupSets.BelowTransitive | src/hashmap_backup_set.cc:33 | the key order is transitive |
| BackupSets.BelowTotal | src/hashmap_backup_set.cc:33 | any two different hashes are ordered one way round |
| BackupSets.BelowAsymmetric | src/hashmap_backup_set.cc:33 | no two hashes order before each other |
| BackupSets.HashesMember | src/hashmap_backup_set.cc:33 | a hash is a key of the set exactly when some entry carries it |
| BackupSets.Insert | src/hashmap_backup_set.cc:39-42 | addFile leaves the keys those of before plus the new hash, and keeps them in ascending order |
| BackupSets.InsertFiles | src/hashmap_backup_set.cc:39-42 | addFile maps the hash to the filename, overwriting, and leaves every other hash as it was |
| BackupSets.InsertAbove | src/hashmap_backup_set.cc:39-42 | a hash above all the set's hashes is added at the end |
| BackupSets.MissingMembers | src/hashmap_backup_set.cc:45-54 | a filename is reported exactly when it belongs to an entry of the other set whose hash this set lacks |
| BackupSets.MissingCount | src/hashmap_backup_set.cc:45-54 | at most one filename per entry of the other set is reported, and none exactly when this set holds every hash of the other |
| BackupSets.MissingSelf | src/hashmap_backup_set.cc:45-54 | a set misses nothing of itself |
| BackupSets.BackupSet.constructor | src/hashmap_backup_set.cc:31-33 | a new set is empty |
| BackupSets.BackupSet.AddFile | src/hashmap_backup_set.cc:39-42 | the entries become Insert of the old ones, still in order |
| BackupSets.BackupSet.GetMissingFiles | src/hashmap_backup_set.cc:45-54 | the loop returns the filenames of the other set, in its hash order, whose hash this set lacks |
| BackupSets.ParseLine | src/hashmap_backup_set.cc:78-88 | a parsed hash and filename are nonempty, the hash has no whitespace and the filename does not start with whitespace |
| BackupSets.ParseLineSucceeds | src/hashmap_backup_set.cc:78-88 | a line parses exactly when it holds a word, whitespace, then another word |
| BackupSets.ParseText | src/hashmap_backup_set.cc:78-88 | a line written as hash, space, filename parses back to that hash and filename when both are readable |
| BackupSets.ParseTextAgain | src/hashmap_backup_set.cc:78-88 | what a line parses to, written back, parses to the same entry |
| BackupSets.LinesCons | src/hashmap_backup_set.cc:77 | std::getline yields a line without terminator whole, then the lines of the rest |
| BackupSets.SerializeCons | src/hashmap_backup_set.cc:107-111 | the written buffer is the first entry's line followed by the rest's |
| BackupSets.LinesSerialize | src/hashmap_backup_set.cc:71-111 | reading lines from a written buffer yields one line per entry, in order |
| BackupSets.AddAscending | src/hashmap_backup_set.cc:144-152 | adding files that ascend above a set appends them |
| BackupSets.ReadTexts | src/hashmap_backup_set.cc:71-90 | reading the lines of readable entries adds those entries one after the other |
| BackupSets.RoundTrip | src/hashmap_backup_set.cc:71-111 | reading what was written from an ordered set of readable entries gives the set back, and writing it again gives the same buffer |
| BackupSets.BackupSetReader.constructor | src/hashmap_backup_set.cc:68 | the reader is bound to its set |
| BackupSets.BackupSetReader.Read | src/hashmap_backup_set.cc:71-90 | the set becomes the old set with every parsed line of the buffer added in order |
| BackupSets.BackupSetWriter.constructor | src/hashmap_backup_set.cc:104 | the writer is bound to its set |
| BackupSets.BackupSetWriter.Write | src/hashmap_backup_set.cc:107-111 | the output is one line per entry, hash, space, filename, in hash order |
| BackupSets.AddTwo | src/hashmap_backup_set.cc:144-152 | two files added to an empty set end in hash order, the second winning on a shared hash |
| BackupSets.MissingSecond | src/hashmap_backup_set.cc:45-54 | two sets sharing their first entry each miss only the other's second filename |
| BackupSets.MissingFilesRow | src/hashmap_backup_set.cc:128-162 | the new set's another thing.pdf is missing from the old, and the old's something else.pdf from the new |
| BackupSets.AscendingFour | src/hashmap_backup_set.cc:169-178 | four hashes ascending step by step are in order |
| BackupSets.SerializeFour | src/hashmap_backup_set.cc:107-111 | four entries are written as their four lines |
| BackupSets.WriterRow | src/hashmap_backup_set.cc:169-195 | the writer row's set, built with addFile, is written as its four lines in hash order |
| BackupSets.ReaderLines | src/hashmap_backup_set.cc:201-211 | the reader row's buffer is what its four files are written as |
| BackupSets.ReaderReadable | src/hashmap_backup_set.cc:201-211 | the reader row's files are in order and readable |
| BackupSets.ReaderRow | src/hashmap_backup_set.cc:213-238 | the set read from the reader row's buffer and the set built from its files miss nothing of each other |
| BackupSets.RoundTripRow | src/hashmap_backup_set.cc:248-276 | writing the set read from the round-trip row's buffer gives that buffer back |
| Intervals.Erase | src/math_intervals.cc:55 | vector::erase drops the element at the position and shifts the rest down by one |
| Intervals.Place | src/math_intervals.cc:91-92 | push_back then sort adds exactly one interval |
| Intervals.PlacePermutes | src/math_intervals.cc:91-92 | the sorted vector is a permutation of the old vector with the new interval pushed back |
| Intervals.PlaceSorted | src/math_intervals.cc:91-92 | sorting by left edge leaves the vector sorted by left edge |
| Intervals.PlaceCovered | src/math_intervals.cc:91-92 | after push_back and sort a point is covered iff it was covered before or lies in the new interval |
| Intervals.PlaceAt | src/math_intervals.cc:91-92 | in a sorted vector the new interval lands after every interval starting at or before it and before every one starting after it |
| Intervals.EraseCovered | src/math_intervals.cc:55 | erasing an interval keeps every point some other interval holds and only those points of it |
| Intervals.EraseSorted | src/math_intervals.cc:55 | erasing keeps the vector sorted by left edge |
| Intervals.EraseSeparated | src/math_intervals.cc:55 | erasing keeps disjoint, ordered intervals disjoint and ordered |
| Intervals.CoalesceSorted | src/math_intervals.cc:48-92 | every path of the walk, the early return included, leaves the set sorted by left edge |
| Intervals.CoalesceCovers | src/math_intervals.cc:48-92 | adding never loses a covered point and covers every point of the new interval, with or without the missing gap test |
| Intervals.CoalesceCoversOnly | src/math_intervals.cc:48-92 | with the gap test, a point covered after adding was covered before or lies in the new interval |
| Intervals.AddCoversExactly | src/math_intervals.cc:41-93 | with the gap test, the set after addInterval covers exactly the points of the set before and of the new interval |
| Intervals.AddCounterexample | src/math_intervals.cc:51-66 | as written, adding [0, 1] to a set holding [5, 6] stores [0, 6], which covers 3 though neither interval does |
| Intervals.CoalesceContained | src/math_intervals.cc:86-88 | a well-formed interval inside a stored interval of a disjoint set returns early with the set unchanged |
| Intervals.AddContained | src/math_intervals.cc:86-88 | addInterval of an interval inside a stored one leaves a disjoint set unchanged |
| Intervals.CoalesceSeparated | src/math_intervals.cc:48-92 | with the gap test, walking from any position keeps a disjoint ordered set disjoint and ordered |
| Intervals.PlaceBetween | src/math_intervals.cc:91-92 | an interval placed between the ones ending before it and the ones beginning after it keeps the set disjoint |
| Intervals.CoalesceApart | src/math_intervals.cc:48-92 | every stored interval that survives the walk was stored before and does not meet the added one, and the rest hold it |
| Intervals.AddSeparated | src/math_intervals.cc:41-93 | with the gap test, addInterval keeps a disjoint ordered set disjoint and ordered, so coalescing really merges colliding intervals |
| Intervals.AddMerges | src/math_intervals.cc:41-93 | with the gap test, each interval after addInterval is an untouched old interval apart from the new one, or contains the new one |
| Intervals.BuildCovers | src/math_intervals.cc:41-93 | with the gap test, a set built by adding intervals one by one from an empty set covers x iff one of the added intervals does |
| Intervals.BuildSorted | src/math_intervals.cc:41-93 | a set built by adding intervals one by one, with or without the gap test, is sorted by left edge |
| Intervals.CoalesceAgrees | src/math_intervals.cc:51-66 | the missing gap test makes no difference while every stored interval from the walk's position on begins at or before the new interval's right edge |
| Intervals.BuildAgrees | src/math_intervals.cc:147-156 | when each interval added ends at or after the left edge of every interval added before it, addInterval as written builds the same set as the corrected one |
| Intervals.BuildCoversAsWritten | src/math_intervals.cc:147-161 | the driver's sets, built with addInterval as written from intervals that each reach back to the earlier ones, cover x iff one of the added intervals does |
| Intervals.IntervalSet.AddIntervalChecked | src/math_intervals.cc:43-93 | addInterval with the gap test added: the set becomes the corrected Add, stays sorted and disjoint, and covers exactly the old points and the new interval |
| Intervals.ThreeRows | src/math_intervals.cc:126-128 | the three rows over (-1,5), (3,8), (12,15) |
| Intervals.OverlapRows | src/math_intervals.cc:129-130 | the rows over (0,5), (2,10) |
| Intervals.LeftOverlapRows | src/math_intervals.cc:131-132 | the rows over (0,5), (-5,2) |
| Intervals.InsideRows | src/math_intervals.cc:133-134 | the rows over (0,5), (2,4) |
| Intervals.AroundRows | src/math_intervals.cc:135-136 | the rows over (0,5), (-2,6) |
| Intervals.SpanningRows | src/math_intervals.cc:137-138 | the rows over (0,5), (7,10), (3,12) |
| Intervals.BridgingRows | src/math_intervals.cc:139-140 | the rows over (0,5), (7,10), (3,9) |
| Intervals.GapRows | src/math_intervals.cc:141-142 | the rows over (0,5), (7,10), (6,9) |
| Intervals.IntervalSet.constructor | src/math_intervals.cc:31-34 | a new set holds no interval |
| Intervals.IntervalSet.AddInterval | src/math_intervals.cc:43-93 | the walk with its erases, the early return and the final push_back and sort leaves the set that Add describes, sorted by left edge |
| Intervals.IntervalSet.IsInSet | src/math_intervals.cc:97-117 | on a set sorted by left edge, the answer is true iff some stored interval contains x; the early false on x < left is sound |
| Segments.Div10 | src/math_intervals.cc:197 | integer division by ten truncates toward zero: the quotient times ten lies within ten of the dividend, on the dividend's side of zero |
| Segments.FastestIsLeast | src/math_intervals.cc:191-207 | current_fastest ends as the least segment time, or as 10000 when every time is larger or there are none |
| Segments.FastestAppend | src/math_intervals.cc:207 | std::min with one more time replaces the fastest when the new time is smaller |
| Segments.Windows | src/math_intervals.cc:200-204 | the n-th time is the time between trackpoints n and n + length |
| Segments.FastestSegment | src/math_intervals.cc:189-210 | fastest_segment returns the least-or-sentinel of the times over every window of benchmark / 10 trackpoints |
| Segments.FastestSegmentRow | src/math_intervals.cc:260-262 | the driver row gives 5 |
| Segments.IndexMapStep | src/math_intervals.cc:228-231 | each pass of the loop records the current position under its expected index |
| Segments.IndexMapBounds | src/math_intervals.cc:227-231 | every position stored in trackpoint_index_map is a valid trackpoint position |
| Segments.IndexMapHas | src/math_intervals.cc:227-231 | every trackpoint's expected index is a key of trackpoint_index_map |
| Segments.IndexMapSlot | src/math_intervals.cc:227-231 | each key maps to a trackpoint with that expected index |
| Segments.IndexMapLatest | src/math_intervals.cc:227-231 | each key maps to the last trackpoint with that expected index, since later ones overwrite |
| Segments.GapSkip | src/math_intervals.cc:235-245 | a window missing an end adds no time |
| Segments.GapTake | src/math_intervals.cc:240-249 | a window with both ends present adds the time between the trackpoints stored for them |
| Segments.GapWindowsMembers | src/math_intervals.cc:234-250 | a time is considered iff it is the time over some window whose two expected ends are both present |
| Segments.FastestSegmentWithGaps | src/math_intervals.cc:219-252 | fastest_segment_with_gaps returns the least-or-sentinel of the times over the windows whose ends are both present |
| Segments.NoGapsIndexMap | src/math_intervals.cc:227-231 | without gaps the index map sends each position to itself and has no other key |
| Segments.NoGapsWindows | src/math_intervals.cc:219-252 | without gaps, the windows with both ends present are exactly the windows of fastest_segment |
| Segments.NoGapsAgree | src/math_intervals.cc:189-252 | without gaps, fastest_segment_with_gaps returns what fastest_segment returns |
| Segments.GapsRowIndexMap | src/math_intervals.cc:275-276 | the index map of the row with gaps |
| Segments.GapsRowWindows | src/math_intervals.cc:275-276 | the row with gaps has three complete windows, taking 9, 9 and 7 |
| Segments.FastestSegmentWithGapsRow | src/math_intervals.cc:275-276 | the row with gaps gives 7 |
| Grids.Put | src/graph_islands_count.cc:30 | writing one tile changes the grid's contents at that one cell and nowhere else |
| Grids.ComponentOutside | src/graph_islands_count.cc:23-28 | a position outside the grid, or not on land, has an empty island |
| Grids.FloodStep | src/graph_islands_count.cc:30-35 | taking out the tile and then the region of each of its four neighbours in what is left takes out exactly the region of the tile |
| Grids.FloodPaint | src/graph_islands_count.cc:22-38 | the helper's recursion, as contents: sinking the tile and then each neighbour's island in what is left sinks exactly the island of the tile |
| Grids.FloodCount | src/graph_islands_size.cc:22-37 | one plus the sizes the four neighbour floods report is the size of the tile's island |
| Grids.PaintRegion | src/graph_islands_size.cc:30-36 | sinking an island leaves exactly its number of tiles fewer land tiles |
| Grids.SinkStep | src/graph_islands_count.cc:49-55 | each flood in the row-major walk takes exactly one island (or none, off land) out of the islands still left |
| Grids.RegionsAfterRemoval | src/graph_islands_count.cc:51-52 | removing one island from the land removes exactly that island from its islands |
| Grids.NoRegions | src/graph_islands_count.cc:47-57 | the land has no islands exactly when it has no tiles |
| Grids.RegionNotEmpty | src/graph_islands_size.cc:32-36 | every island has at least one tile |
| Grids.SameComponent | src/graph_islands_count.cc:32-35 | tiles connected by a walk through land belong to the same island |
| Grids.ComponentIs | src/graph_islands_count.cc:32-35 | a closed set of land tiles all reachable from a holds exactly a's island |
| Grids.ComponentAfterRemoval | src/graph_islands_count.cc:49-55 | sinking one island leaves every other island as it was |
| IslandsCount.CountIslandsHelper | src/graph_islands_count.cc:22-38 | returns true exactly on a land tile, and then sinks exactly the island holding it; elsewhere nothing changes |
| IslandsCount.CountIslands | src/graph_islands_count.cc:47-57 | returns the number of 4-connected islands of land, and every land tile ends as water |
| IslandsSize.LargestIslandHelper | src/graph_islands_size.cc:22-37 | returns the number of tiles of the island holding the tile (0 off land) and sinks exactly that island |
| IslandsSize.LargestIsland | src/graph_islands_size.cc:44-55 | returns the size of the largest island: no island is larger, one has that size, and 0 exactly when there is no land |
| IslandsSize.SinkIsland | src/graph_islands_size.cc:48-51 | one helper call in the walk keeps the largest island sunk so far |
| IslandsSize.SunkAll | src/graph_islands_size.cc:54 | at the end of the walk the kept maximum is the size of the largest island |
| IslandsSize.KeepLargest | src/graph_islands_size.cc:49-51 | keeping the larger of the current result and the maximum keeps the largest island taken out so far |
| IslandsSize.LargestOfAll | src/graph_islands_size.cc:44-55 | once every island is taken out, the maximum is the largest island's size, 0 only without islands |
| IslandsEnclosedSpace.LargestEnclosedSpaceHelper | src/graph_islands_enclosed_space.cc:28-50 | returns -1 outside the grid or when the tile's body of water touches the border, its size otherwise (0 off water), and marks exactly that body visited |
| IslandsEnclosedSpace.EnclosedFlood | src/graph_islands_enclosed_space.cc:38-49 | marking the tile and flooding each neighbour's body in what is left marks the tile's whole body, and the combined result measures it |
| IslandsEnclosedSpace.EnclosedStep | src/graph_islands_enclosed_space.cc:45-49 | a body touches the border exactly when the tile is on the border or a neighbour's body does; otherwise the sizes add up |
| IslandsEnclosedSpace.LargestEnclosedSpace | src/graph_islands_enclosed_space.cc:54-63 | returns the size of the largest body of water not touching the border: none is larger, one has that size, and 0 exactly when every body touches the border |
| IslandsEnclosedSpace.WalkStep | src/graph_islands_enclosed_space.cc:58-59 | one helper call in the walk keeps the largest enclosed body flooded so far |
| IslandsEnclosedSpace.KeepEnclosed | src/graph_islands_enclosed_space.cc:59 | std::max of the result and the maximum keeps the largest enclosed body, since bodies touching the border give -1 |
| IslandsEnclosedSpace.WalkDone | src/graph_islands_enclosed_space.cc:62 | at the end of the walk the kept maximum is the largest enclosed body |
| IslandsEnclosedSpace.EnclosedOfAll | src/graph_islands_enclosed_space.cc:54-63 | once every body is taken out, the maximum is the largest enclosed one, and 0 exactly when every body touches the border |
| IslandsIdentify.GetLeft | src/graph_islands_identify.cc:35-41 | the tile of the row before (x - 1), water on the first row; src/count_islands.cc:17-22 holds the same code without the template |
| IslandsIdentify.GetAbove | src/graph_islands_identify.cc:43-49 | the tile of the column before (y - 1), water in the first column; src/count_islands.cc:31-36 holds the same code without the template |
| IslandsIdentify.GetRight | src/count_islands.cc:24-29 | the tile of the row after, water on the last row |
| IslandsIdentify.GetBelow | src/count_islands.cc:38-43 | the tile of the column after, water in the last column |
| IslandsIdentify.Insert | src/graph_islands_identify.cc:123-124 | `equivalent_island_map[k].insert(v)`: k becomes a key if it was not one, its set gains v, and no other set changes |
| IslandsIdentify.IsolateIslandChunks | src/graph_islands_identify.cc:80-129 | after the walk every land tile holds a chunk id and reaches that id's first tile through land, water stays water, the map's keys are exactly the ids handed out, each set holds its key and is symmetric, ids in one set lie on one island, and adjacent land tiles hold one id or each other's; src/count_islands.cc:61-110 holds the same code without the template |
| IslandsIdentify.VisitTile | src/graph_islands_identify.cc:90-126 | one tile of the walk keeps that labelling invariant, one tile further on |
| IslandsIdentify.FreshTile | src/graph_islands_identify.cc:96-102 | a land tile with water left and above starts a chunk with the next id, equivalent to itself |
| IslandsIdentify.CopyTile | src/graph_islands_identify.cc:103-114 | a land tile whose labelled land neighbours hold one id takes that id |
| IslandsIdentify.LinkTile | src/graph_islands_identify.cc:115-125 | a land tile between two different ids takes the left one, and each id goes into the other's set |
| IslandsIdentify.VisitFresh | src/graph_islands_identify.cc:96-102 | the fresh-chunk case keeps the labelling invariant |
| IslandsIdentify.VisitCopy | src/graph_islands_identify.cc:103-114 | the copy cases keep the labelling invariant |
| IslandsIdentify.VisitLink | src/graph_islands_identify.cc:115-125 | the linking case keeps the labelling invariant: the two chunks are on one island |
| IslandsIdentify.VisitWater | src/graph_islands_identify.cc:90 | a water tile is skipped and the invariant holds one tile further on |
| IslandsIdentify.Around | src/graph_islands_identify.cc:91-92 | the left and above tiles are water or ids of labelled land, and are the only labelled land next to the tile |
| IslandsIdentify.LinkWellFormed | src/graph_islands_identify.cc:123-124 | inserting two ids into each other's sets keeps every set holding its key and symmetric |
| IslandsIdentify.MergeEquivalentIslandMap | src/graph_islands_identify.cc:136-201 | afterwards the smallest id of each group of connected chunks holds the whole group and every other set is empty; the keys do not change; src/count_islands.cc:112-133 holds the same code without the template |
| IslandsIdentify.MergeInto | src/graph_islands_identify.cc:166-199 | one key's pass: an empty set stays as it is; otherwise, for the smallest id of an untouched group, its set becomes the whole group and every other set of the group is emptied |
| IslandsIdentify.MergePop | src/graph_islands_identify.cc:175-199 | one pop keeps the pass's invariant and empties one more set or shortens the stack |
| IslandsIdentify.PushAll | src/graph_islands_identify.cc:170-172 | the stack gains exactly the ids of the set |
| IslandsIdentify.MoveInto | src/graph_islands_identify.cc:183-189 | the set of the key gains the moved ids, each pushed on the stack, and no other set changes |
| IslandsIdentify.MergeVisit | src/graph_islands_identify.cc:165 | visiting keys in increasing order, the next key's set is empty or its group is untouched |
| IslandsIdentify.MergeVisited | src/graph_islands_identify.cc:165-200 | after each visit the sets are those the keys left call for |
| IslandsIdentify.MergeStep | src/graph_islands_identify.cc:182-198 | moving a popped id's set keeps the pass's invariant and empties a set or shortens the stack |
| IslandsIdentify.MergeDone | src/graph_islands_identify.cc:174 | once the stack is empty the key's set is its whole group |
| IslandsIdentify.CountUniqueIslands | src/graph_islands_identify.cc:205-214 | returns the number of keys whose set is not empty; src/count_islands.cc:135-143 holds the same code without the template |
| IslandsIdentify.MergedRoots | src/graph_islands_identify.cc:195-197 | after the merge the keys with a non-empty set are exactly the smallest ids of their groups |
| IslandsIdentify.JoinedIsReaches | src/graph_islands_identify.cc:115-125 | two chunk ids are linked through the map exactly when their chunks lie on one island |
| IslandsIdentify.PathJoined | src/graph_islands_identify.cc:90-125 | a walk through land ends on a tile whose id is linked to the id of the tile it starts on |
| IslandsIdentify.WalkReaches | src/graph_islands_identify.cc:123-124 | ids linked through the map lie on one island |
| IslandsIdentify.Finished | src/graph_islands_identify.cc:88-89 | once the walk has passed every row, every land tile is labelled |
| IslandsIdentify.RootsAreIslands | src/graph_islands_identify.cc:216-220 | there are as many groups of chunks as islands |
| IslandsIdentify.RootsOneToOne | src/graph_islands_identify.cc:216-220 | two groups never lie on one island |
| IslandsIdentify.RegionRoot | src/graph_islands_identify.cc:216-220 | every island is the island of some group |
| IslandsIdentify.CountIslands | src/graph_islands_identify.cc:221-250 | returns the number of 4-connected islands of the grid as it was; src/count_islands.cc:145-153 holds the same code without the template |
| IslandsIdentify.SameClass | src/graph_islands_identify.cc:131-135 | two chunks have the same group exactly when one is reached from the other through the sets |
| IslandsIdentify.RootOf | src/graph_islands_identify.cc:165 | the ids of one group share its smallest id, the key the ordered map meets first |
| Maze.Around | src/array_maze.cc:72-85 | the four tiles a visit tries, in the order of the four calls: each is adjacent to the visited tile |
| Maze.Search | src/array_maze.cc:30-91 | the search as a function of the tiles: it never leaves more open tiles than it found, and when it fails its route is empty |
| Maze.Tries | src/array_maze.cc:74-85 | the neighbour searches in turn, each on the tiles the one before left, stopping at the first that reaches the end; the same bounds as Search |
| Maze.FindPathHelper | src/array_maze.cc:30-91 | the search in place: its flag, its route and the tiles it leaves in the grid are exactly those of Search on the tiles before, and the path grows by exactly the route (not at all on failure) |
| Maze.TryNeighbours | src/array_maze.cc:74-85 | the four neighbour calls in place: flag and tiles are those of Tries; on success the path is the path before the visit, the visited tile and the route found; on failure the path still ends in the visited tile |
| Maze.FindPath | src/array_maze.cc:96-105 | the result is empty exactly when the end cannot be reached from the start through open tiles; otherwise it is a route from start to end through open tiles, with no tile twice; either way it is what Search finds |
| Maze.Concluded | src/array_maze.cc:96-105 | find_path returns the route when the search reached the end and the end is then reachable; when the search failed, the end is not reachable from the start |
| Maze.SearchSound | src/array_maze.cc:30-91 | the search only adds walls; on success its route runs through the open tiles from the current tile to the end and is walled off; on failure the end is not in the current tile's open region, and exactly that region has been walled off |
| Maze.TriesSound | src/array_maze.cc:74-90 | when a neighbour's search succeeds, the visited tile followed by its route is a route to the end; when all fail, the tiles left are the open regions of the neighbours walled off in turn, none holding the end |
| Maze.NeighbourSound | src/array_maze.cc:74-85 | one neighbour's search: on success the visited tile with its route in front is a route to the end; on failure that neighbour's open region was walled off and does not hold the end |
| Maze.Enclosed | src/array_maze.cc:86-90 | when all four neighbour searches fail, the visited tile's whole open region was walled off and the end is not in it |
| Maze.FoundIff | src/array_maze.cc:96-105 | the search reaches the end exactly when the end is in the open region of the tile it starts from |
| Maze.Blocked | src/array_maze.cc:38-55 | off the maze or on a wall the search fails and leaves the tiles as they were |
| Maze.Reached | src/array_maze.cc:57-67 | at the end tile the search walls it off and returns the one-tile route |
| Maze.Visit | src/array_maze.cc:57-90 | at any other open tile the route is that tile followed by what the neighbour searches found once it is walled off, and nothing when they found nothing |
| Maze.TriesStep | src/array_maze.cc:74-85 | the neighbours are tried in order: the first one's outcome when it succeeds, otherwise the rest tried on the tiles it left |
| Maze.Through | src/array_maze.cc:74-85 | when the neighbours before the i-th are walls and the end can be reached from the i-th, the search goes through the i-th |
| Maze.Straight | src/array_maze.cc:74-85 | a search that can go along a walk tile by tile, each step the first open neighbour in the order of the calls, follows it, and its route is the walk followed by the route from where the walk ends |
| Maze.Detour | src/array_maze.cc:74-85 | a search whose first neighbour leads only into a closed pocket without the end, whose second neighbour is a wall and whose third leads to the end, returns the tile followed by the route from the third |
| Maze.FailsWithin | src/array_maze.cc:86-90 | a search started inside a closed pocket without the end fails, walling off its region |
| Maze.MazeOneSearch | src/array_maze.cc:126-133 | on the first maze of the driver the search from (0, 0) reaches (4, 6) by the thirteen tiles that run along the top row to (0, 4), then down column 3 and along the bottom row |
| Maze.MazeOneExpectedMissed | src/array_maze.cc:134-145 | the route the search returns on the first maze is not the eleven-tile path the driver lists, but two tiles longer |
| Maze.MazeTwoSearch | src/array_maze.cc:146-154 | on the second maze (4, 6) cannot be reached from (0, 0), and the search finds no route, as the driver expects |
| Maze.TestFindPathOne | src/array_maze.cc:126-145 | find_path on the first maze returns the thirteen-tile route, not the path the driver lists |
| Maze.TestFindPathTwo | src/array_maze.cc:146-154 | find_path on the second maze returns the empty path |
| Maze.Layout | src/array_maze.cc:126-131 | a maze given row by row holds at each tile in its rows the value of that row and column, and no other tile |
| Maze.Build | src/array_maze.cc:126-131 | a fresh grid laid out from rows of equal length holds exactly their tiles |
| Maze.Untouched | src/array_maze.cc:38-55 | off the maze or on a wall the search finds nothing and changes nothing |
| Maze.Arrived | src/array_maze.cc:58-67 | walling off the end tile and stopping there finds the one-tile route |
| Maze.WallOne | src/array_maze.cc:58 | walling off an open tile leaves exactly one open tile fewer |
| Maze.Extend | src/array_maze.cc:74-85 | a neighbour's successful route with the visited tile in front is a route from the visited tile |
| Maze.DeadEnd | src/array_maze.cc:86-90 | when all four neighbour searches fail, the tile's whole open region was walled off and the end is not in it |
| Maze.WallRegion | src/array_maze.cc:74-85 | after a failed neighbour search no more tiles are open than before |
| Maze.Pop | src/array_maze.cc:89 | popping the tile pushed last restores the path |
| Maze.RouteReaches | src/array_maze.cc:96-105 | a route from a to b puts b in a's open region |
| Maze.RouteDistinct | src/array_maze.cc:58 | no tile appears twice on a route, since each visited tile is walled off |
| Maze.RouteIsPath | src/array_maze.cc:59 | a route is a walk of adjacent tiles from its first tile to its last |
| Skyline.SplitEdges | src/graph_city_skyline.cc:93-97 | the edges are each building's left edge then its right edge, both at its height, in building order |
| Skyline.EdgesOfBuilding | src/graph_city_skyline.cc:94-97 | building i gives edges 2i (left) and 2i + 1 (right) |
| Skyline.SortEdges | src/graph_city_skyline.cc:101 | the sorted edges are in ascending x order and a permutation of the input |
| Skyline.InsertSorted | src/graph_city_skyline.cc:101 | inserting an edge after those not right of it keeps the edges sorted |
| Skyline.InsertEdge | src/graph_city_skyline.cc:101 | inserting an edge adds exactly that edge |
| Skyline.UpperBound | src/graph_city_skyline.cc:128 | multiset::upper_bound: every height before the position is at most v, the one at it is above v |
| Skyline.LowerBound | src/graph_city_skyline.cc:158 | multiset::find's search: every height before the position is below v, the one at it is at least v |
| Skyline.Insert | src/graph_city_skyline.cc:134 | multiset::insert adds one copy of the height and keeps the heights ascending |
| Skyline.Erase | src/graph_city_skyline.cc:158-162 | erasing the found height removes one copy of it, keeping the heights ascending; when the height is not there find gives end(), whose erase is undefined (None), exactly then |
| Skyline.Reference | src/graph_city_skyline.cc:128-130 | *upper_bound(0), or 0: of ascending heights, the least positive height, or 0 when none is positive |
| Skyline.Tallest | src/graph_city_skyline.cc:124-125 | the height the comment describes: the largest height in progress, 0 when none |
| Skyline.SweepEdge | src/graph_city_skyline.cc:115-180 | one loop turn does what Step describes, with the level as written; stuck exactly when Step erases a missing height |
| Skyline.SweepStuck | src/graph_city_skyline.cc:158-162 | once a sweep erases a missing height, every longer sweep does |
| Skyline.SweepTracks | src/graph_city_skyline.cc:106 | the heights in progress are those of the left edges passed, less one per right edge passed, kept ascending |
| Skyline.StepTracks | src/graph_city_skyline.cc:134 | a left edge adds its height, a right edge removes one copy of its height |
| Skyline.CountBalanced | src/graph_city_skyline.cc:94-97 | for buildings whose left edge lies left of their right edge, the right edges at a height up to x are no more than the left edges at that height before x |
| Skyline.HeightsMatch | src/graph_city_skyline.cc:94-97 | every building gives one left and one right edge at its height |
| Skyline.PermBalanced | src/graph_city_skyline.cc:101 | the count holds for any permutation of the edges |
| Skyline.RightsBehindLefts | src/graph_city_skyline.cc:154-158 | before a right edge of sorted balanced edges, more left edges than right edges at its height have gone by |
| Skyline.RightInProgress | src/graph_city_skyline.cc:157-158 | the height of a right edge is in progress when the sweep reaches it, so find never returns end() |
| Skyline.SweepPrefix | src/graph_city_skyline.cc:114 | the sweep of sorted balanced edges gets through every prefix |
| Skyline.SweepBalanced | src/graph_city_skyline.cc:114-181 | over sorted balanced edges the sweep never erases a missing height and ends with nothing in progress |
| Skyline.SweepPoints | src/graph_city_skyline.cc:140-178 | the points come in vertical pairs at the x of an edge and, over sorted edges, in ascending x order |
| Skyline.StepPoints | src/graph_city_skyline.cc:137-143 | one edge keeps the points paired and ascending in x |
| Skyline.LeftVisible | src/graph_city_skyline.cc:116-122 | with the tallest height as level, a left edge adds a step exactly when it stands above every height in progress |
| Skyline.RightVisible | src/graph_city_skyline.cc:145-152 | with the tallest height as level, a right edge adds a step exactly when it stands above every height left in progress |
| Skyline.HiddenCounterexample | src/graph_city_skyline.cc:128-143 | a left edge of height 7 reached while 5 and 10 are in progress is hidden behind 10, yet as written it emits (2, 5), (2, 7); the corrected level emits nothing |
| Skyline.SortedUnique | src/graph_city_skyline.cc:101 | with pairwise distinct x, every x-sorted permutation is the same sequence, whatever std::sort does with ties |
| Skyline.TestPermutation | src/graph_city_skyline.cc:76-83 | the test edges in x order are a permutation of the test buildings' edges |
| Skyline.TestOrder | src/graph_city_skyline.cc:50-83 | the test edges are in strictly ascending x order |
| Skyline.TestSweep | src/graph_city_skyline.cc:50-83 | sweeping the test edges gives the expected points, with either level |
| Skyline.TestSkyline | src/graph_city_skyline.cc:187-197 | the driver's case: the sorted edges are the test edges and the sweep returns the expected points |
| Skyline.FindSkyline | src/graph_city_skyline.cc:91-184 | the result is the sweep, with the level as written, of an x-sorted permutation of the buildings' edges; None when a right edge's height is not in progress |
| Ir.AddU32 | src/compiler_structs.h:28 | the sum of two uint32_t values wraps around modulo 2^32 |
| Ir.Deref | src/compiler_structs.h:43-45 | following a pointer gives the entry of the arena it points into |
| Ir.DerefSound | src/compiler_structs.h:48-52 | in a well-formed block every operand a pointer leads to is itself sound |
| Ir.WithInstr | src/compiler_structs.h:48-52 | replacing an instruction by a sound one keeps the block well formed |
| Ir.ChangedDiffs | src/constant_fold.cc:15 | the change count of two instruction lists counts exactly the positions at which they differ |
| Ir.BasicBlock.constructor | src/compiler_structs.h:48-52 | a block holds the three arenas it is given |
| Ir.SimpleWellFormed | src/compiler_structs.cc:65-98 | the fixture block a = 1 + 2; b = a + 3; c = 5; d = a; e = d + b; f = c + d; return e is well formed |
| ConstantFold.FoldConstants | src/constant_fold.cc:18-48 | every Add of two constants, and only those, becomes an Assignment of a constant appended for it holding the uint32 sum; names are untouched, old constants kept, and the count is the number of folds |
| ConstantFold.FoldOne | src/constant_fold.cc:25-39 | folding one Add appends its sum and keeps the pass's invariant |
| ConstantFold.FoldSkip | src/constant_fold.cc:40-42 | any other instruction is left as it is |
| ConstantFold.KeepsOperand | src/constant_fold.cc:26 | while the pass runs, every operand of the original block keeps its kind and value, so the test reads the same as on the original |
| ConstantFold.FoldWellFormed | src/constant_fold.cc:30-34 | after the pass the block is still well formed: every fold points at a constant that exists |
| ConstantFold.FoldChanges | src/constant_fold.cc:15 | the count returned is the number of instructions the pass changed, so it is above 0 exactly when something changed |
| ConstantFold.FoldCountChanged | src/constant_fold.cc:38 | among the first k instructions, the folded ones are exactly the changed ones |
| ConstantFold.SimpleFoldable | src/compiler_structs.cc:84-90 | in the fixture only a = 1 + 2 is foldable, with sum 3 |
| ConstantFold.SimpleFold | src/constant_fold.cc:50-62 | on the fixture one instruction folds: a = 3, with 3 appended as the eighth constant, the rest unchanged |
| ConstantProp.Replacement | src/constant_prop.cc:9-15 | a replaceable name is replaced by the constant its declaring Assignment reads, which is a constant operand other than the name |
| ConstantProp.PropConstants | src/constant_prop.cc:21-58 | the pass walks the instructions in order, rewriting the block as the per-instruction step does, changes no instruction count, and returns the number of sources it replaced |
| ConstantProp.PropInstr | src/constant_prop.cc:25-54 | one turn of the loop: an Add tries its second and then, falling through, its first source; an Assignment or a Return its first; any other entry is left alone |
| ConstantProp.ReplaceSrc1 | src/constant_prop.cc:38-50 | the first source is replaced exactly when it is a name declared by an Assignment of a constant, and only that field changes |
| ConstantProp.ReplaceSrc2 | src/constant_prop.cc:27-37 | the second source of an Add is replaced exactly when it can be, and only that field changes |
| ConstantProp.StepChanges | src/constant_prop.cc:35 | each turn adds to the count the number of sources it replaced, so the total is the number of sources that differ |
| ConstantProp.StepFrame | src/constant_prop.cc:31 | a turn rewrites only the sources of its own instruction |
| ConstantProp.PropFrame | src/constant_prop.cc:24 | instructions not yet reached are still as they were |
| ConstantProp.NotYetVisited | src/constant_prop.cc:24 | the instruction a turn works on has not been changed by earlier turns |
| ConstantProp.Keep1 | src/constant_prop.cc:44 | replacing a first source never undoes a replacement made earlier, since it reads a name and writes a constant |
| ConstantProp.Keep2 | src/constant_prop.cc:31 | the same for a second source |
| ConstantProp.Prop1Keeps | src/constant_prop.cc:44 | after replacing a first source every source is still itself or the constant its name is assigned |
| ConstantProp.Prop2Keeps | src/constant_prop.cc:31 | the same for a second source |
| ConstantProp.StepKeeps | src/constant_prop.cc:25-54 | a whole turn keeps every source itself or the constant its name is assigned |
| ConstantProp.StepKeepsAll | src/constant_prop.cc:51-52 | an instruction none of whose sources can be replaced is left as it is |
| ConstantProp.PropPropagates | src/constant_prop.cc:17-20 | the pass only replaces a name by the constant assigned to it, and changes nothing but sources, so the block computes what it computed |
| ConstantProp.NothingPropagated | src/constant_prop.cc:22 | before the pass every source is itself |
| ConstantProp.SrcOne | src/constant_prop.cc:35 | rewriting one instruction changes as many sources as it rewrites |
| ConstantProp.SrcSame | src/constant_prop.cc:22 | equal instruction lists differ in no source, so the count starts at 0 |
| ConstantProp.SimpleAssigned | src/compiler_structs.cc:65-98 | in the fixture, c is declared by c = 5 and can be replaced by 5 |
| ConstantProp.SimpleNotAssigned | src/constant_prop.cc:9-15 | in the fixture, a, b and e are declared by an Add and d is assigned a name, so none of them can be replaced |
| ConstantProp.SimpleConstants | src/constant_prop.cc:10 | a constant source is never replaced |
| ConstantProp.SimpleKept | src/constant_prop.cc:60-72 | on the fixture, the first five instructions are left as they are |
| ConstantProp.SimpleReplaced | src/constant_prop.cc:60-72 | on the fixture, f = c + d becomes f = 5 + d |
| ConstantProp.SimpleReturn | src/constant_prop.cc:60-72 | on the fixture, return e is left alone |
| ConstantProp.SimpleProp | src/constant_prop.cc:60-72 | on the fixture the pass changes f = c + d into f = 5 + d and nothing else, and counts one replacement |
| DeadCode.Weight | src/dead_code.cc:32-51 | the walk from an operand costs at least one step, so with the rank every pop shrinks the work left |
| DeadCode.ReturnStatement | src/dead_code.cc:14-17 | the return is a pointer to the block's last instruction |
| DeadCode.LiveInstrs | src/dead_code.cc:24-51 | the worklist walk from the return, pushing src1, src2 and decl and skipping nulls, records exactly the Instruction operands the walk meets |
| DeadCode.Popped | src/dead_code.cc:33-34 | popping an operand takes its walk out of the stack's remaining work and live set |
| DeadCode.Pushed | src/dead_code.cc:42-44 | pushing an operand adds its walk to the stack's remaining work and live set |
| DeadCode.Unfold | src/dead_code.cc:41-50 | the walk from an operand is the operand, then the walks from its src1, src2 and decl |
| DeadCode.FromNode | src/dead_code.cc:48-50 | an operand is recorded exactly when it is an Instruction |
| DeadCode.FromNull | src/dead_code.cc:37-39 | a null operand is skipped and leads nowhere |
| DeadCode.Follows | src/dead_code.cc:36 | in a well-formed, ranked block every non-null pointer can be followed |
| DeadCode.LiveReached | src/dead_code.cc:27 | the live instructions are exactly the Instruction operands reachable from the return through src1, src2 and decl |
| DeadCode.ReachedPoints | src/dead_code.cc:41-44 | everything reached is a non-null operand of the block |
| DeadCode.ReachedClosed | src/dead_code.cc:41-44 | the walk misses no operand that something it reached reads or is declared by |
| DeadCode.ReachedLeast | src/dead_code.cc:31 | what the walk reaches is the least such closed set holding the return |
| DeadCode.MarkOne | src/dead_code.cc:56-62 | an Instruction entry that is not live becomes Temp; every other field, and every other entry, stays |
| DeadCode.MarkDead | src/dead_code.cc:53-63 | every Instruction entry not in the live set, and no other, is marked Temp, and the loop changes that many entries |
| DeadCode.ChangedNext | src/dead_code.cc:55 | changing one more position adds whether it changed to the count of differences |
| DeadCode.EliminateDeadInstrs | src/dead_code.cc:23-66 | the entries the walk from the return does not reach are marked Temp and nothing else changes; the count returned is 0 as written |
| DeadCode.ReturnKept | src/dead_code.cc:27-29 | the return itself is never marked dead |
| DeadCode.SimpleRanked | src/compiler_structs.cc:65-98 | the fixture block is well formed and its edges go down in rank, so the walk ends on it |
| DeadCode.SimpleBelow | src/compiler_structs.cc:65-98 | every edge of the fixture goes to an earlier entry |
| DeadCode.SimpleFromConst | src/dead_code.cc:48 | the walk from a constant records nothing |
| DeadCode.SimpleFromInstr0 | src/dead_code.cc:41-50 | the walk from a = 1 + 2 records only itself |
| DeadCode.SimpleFromNameA | src/dead_code.cc:44 | the walk from the name a goes to its declaration a = 1 + 2 |
| DeadCode.SimpleFromInstr1 | src/dead_code.cc:41-50 | the walk from b = a + 3 records it and a = 1 + 2 |
| DeadCode.SimpleFromNameB | src/dead_code.cc:44 | the walk from the name b records b = a + 3 and a = 1 + 2 |
| DeadCode.SimpleFromInstr3 | src/dead_code.cc:41-50 | the walk from d = a records it and a = 1 + 2 |
| DeadCode.SimpleFromNameD | src/dead_code.cc:44 | the walk from the name d records d = a and a = 1 + 2 |
| DeadCode.SimpleFromInstr4 | src/dead_code.cc:41-50 | the walk from e = d + b records it, d = a, b = a + 3 and a = 1 + 2 |
| DeadCode.SimpleFromNameE | src/dead_code.cc:44 | the walk from the name e records the same four instructions |
| DeadCode.SimpleLive | src/dead_code.cc:68-80 | on the fixture the walk from return e finds every instruction but c = 5 and f = c + d |
| DeadCode.SimpleMarked | src/dead_code.cc:68-80 | on the fixture c = 5 and f = c + d become Temp and nothing else changes |
| DeadCode.SimpleChanged | src/dead_code.cc:53 | marking those two changes two entries |
| DeadCode.SimpleEliminated | src/dead_code.cc:65 | on the fixture the pass changes two entries yet returns 0 |
| DeadCodeList.NotIn | dead_code.cc:53-59 | the entries collected are no more than the block holds |
| DeadCodeList.GetDeadInstrs | dead_code.cc:18-62 | the result is the entries of the block, in block order, that the walk from its last entry did not record as live |
| DeadCodeList.NotInMember | dead_code.cc:55-58 | an entry is collected exactly when it is in the block and not live |
| DeadCodeList.NotInOrdered | dead_code.cc:55-58 | the entries collected keep their order in the block |
| DeadCodeList.SubsequenceOfPrefix | dead_code.cc:57 | appending to the block keeps what was collected a subsequence |
| DeadCodeList.SubsequenceShorter | dead_code.cc:57 | dropping the last collected entry leaves a subsequence |
| DeadCodeList.DeadUnreached | dead_code.cc:53-59 | an entry is returned exactly when it is not an Instruction reachable from the block's last entry |
| DeadCodeList.ReturnNotDead | dead_code.cc:9-12 | the last entry, when it is an instruction, is never returned as dead |
| DeadCodeList.NotInOne | dead_code.cc:55-58 | when every entry but one is live, exactly that one is returned |
| DeadCodeList.NotInNone | dead_code.cc:55-58 | when every entry is live, nothing is returned |
| DeadCodeList.RootWellFormed | dead_code.cc:73-106 | the block built by main is well formed |
| DeadCodeList.RootBelow | dead_code.cc:87-98 | every edge of main's block goes to an earlier entry |
| DeadCodeList.RootRanked | dead_code.cc:100-106 | main's block is ranked and its entries point into it |
| DeadCodeList.RootFromConst | dead_code.cc:43 | the walk from a constant records nothing |
| DeadCodeList.RootFromInstr0 | dead_code.cc:87 | the walk from a = 1 + 2 records only itself |
| DeadCodeList.RootFromNameA | dead_code.cc:94 | the walk from a reaches a = 1 + 2 |
| DeadCodeList.RootFromInstr1 | dead_code.cc:88 | the walk from b = a + 3 records it and a = 1 + 2 |
| DeadCodeList.RootFromNameB | dead_code.cc:95 | the walk from b records b = a + 3 and a = 1 + 2 |
| DeadCodeList.RootFromInstr3 | dead_code.cc:90 | the walk from d = 6 + 7 records only itself |
| DeadCodeList.RootFromNameD | dead_code.cc:97 | the walk from d records d = 6 + 7 |
| DeadCodeList.RootFromInstr4 | dead_code.cc:91 | the walk from e = d + b records it, d = 6 + 7, b = a + 3 and a = 1 + 2 |
| DeadCodeList.RootFromNameE | dead_code.cc:98 | the walk from e records the same four |
| DeadCodeList.RootLive | dead_code.cc:92 | the walk from return e records every instruction but c = 5 |
| DeadCodeList.RootDead | dead_code.cc:111 | GetDeadInstrs on main's block returns c = 5 alone |
| MinRewards.ResultIsMinimum | src/array_min_rewards.cc:15-143 | allocate_min_rewards returns the total of an allocation that gives everyone at least one and a higher-rated neighbour more, and no such allocation has a smaller total: it is the least total; the streak counters and the clean-up add up to exactly the sum of the reference allocation |
| MinRewards.RunCharged | src/array_min_rewards.cc:88-128 | on every pass the total counted so far, with what the clean-up would add, is the reference allocation charged up to the current index |
| MinRewards.StepCharged | src/array_min_rewards.cc:90-126 | one pass of the loop keeps that meaning of the counters and the total |
| MinRewards.StepFalling | src/array_min_rewards.cc:92-98 | a falling step charges the individuals of the decreasing streak as they come |
| MinRewards.StepRising | src/array_min_rewards.cc:98-112 | a rising step closes any decreasing streak, charging its peak the longer of its two runs, and extends the increasing streak |
| MinRewards.CloseRising | src/array_min_rewards.cc:110-111 | outside a decreasing streak, the previous individual is charged the increasing run ending at it |
| MinRewards.CloseFalling | src/array_min_rewards.cc:100-106 | closing a decreasing streak charges its peak the longer of its runs |
| MinRewards.AllocationAt | src/array_min_rewards.cc:15-20 | the reference allocation gives each individual the longer of its increasing run in and its decreasing run out |
| MinRewards.Row3 | src/array_min_rewards.cc:156 | {4,3,2,0,1,5} gives 15 |
| MinRewards.Row4 | src/array_min_rewards.cc:157 | {5,1,0,2,3,4} gives 15 |
| MinRewards.Row6 | src/array_min_rewards.cc:159 | {2,4,2,4} gives 6 |
| MinRewards.Row7 | src/array_min_rewards.cc:160 | {2,4,2,4,2} gives 7 |
| MinRewards.Row8 | src/array_min_rewards.cc:161 | {4,2,4,2,4} gives 8 |
| MinRewards.Row9 | src/array_min_rewards.cc:162 | {4,2,4,2} gives 6 |
| MinRewards.Row10 | src/array_min_rewards.cc:163 | {1,3,2,2,1} gives 7 |
| MinRewards.Row11 | src/array_min_rewards.cc:164 | {1,6,10,8} gives 7 |
| MinRewards.Row12 | src/array_min_rewards.cc:165 | {1,6,10,8,7} gives 9 |
| MinRewards.Row13 | src/array_min_rewards.cc:166 | {1,6,10,8,7,3} gives 13 |
| MinRewards.Row14 | src/array_min_rewards.cc:167 | {1,6,10,8,7,3,2} gives 18 |
| MinRewards.Row15 | src/array_min_rewards.cc:168 | {3,2,1} gives 6 |
| MinRewards.Row16 | src/array_min_rewards.cc:169 | {1,2,3} gives 6 |
| MinRewards.Row17Up | src/array_min_rewards.cc:170 | the increasing runs of the long row |
| MinRewards.Row17Down | src/array_min_rewards.cc:170 | the decreasing runs of the long row |
| MinRewards.Row17Allocation | src/array_min_rewards.cc:170 | the least allocation of the long row is 1,2,3,5,4,3,2,1,4,3,2,1,3,2,1,1,2,3,4 |
| MinRewards.Row17Sum | src/array_min_rewards.cc:170 | those rewards add up to 47 |
| MinRewards.Row17 | src/array_min_rewards.cc:170 | the long row gives 47 |
| Palindromes.Row2 | src/string_palindromes.cc:20 | "001010" gives "100001" |
| Palindromes.Row3 | src/string_palindromes.cc:21 | "777" gives "777" |
| Palindromes.Row4 | src/string_palindromes.cc:22 | "" gives "" |
| Palindromes.Row5 | src/string_palindromes.cc:23 | "5" gives "5" |
| Palindromes.Row7 | src/string_palindromes.cc:25 | "909" gives "909" |
| Palindromes.Row8 | src/string_palindromes.cc:26 | "0" gives "0" |
| Palindromes.Row10 | src/string_palindromes.cc:28 | "00000" gives "0" |
| Palindromes.Row11 | src/string_palindromes.cc:29 | "000010" gives "1" |
| Palindromes.Row12 | src/string_palindromes.cc:30 | "5259190" gives "95259" |
| Palindromes.Row13 | src/string_palindromes.cc:31 | "55990" gives "95059" |
| Palindromes.Row14 | src/string_palindromes.cc:32 | "444947137" gives "7449447" |
| Palindromes.Row15 | src/string_palindromes.cc:33 | "00009" gives "9" |
| Palindromes.LargestIsCandidate | src/string_palindromes.cc:39-41 | the result is a palindrome made of the input's digits, each used at most as often as it occurs, with no leading zero unless it is "0" |
| Palindromes.CandidatePrecedes | src/string_palindromes.cc:39-41 | every such palindrome is shorter than the result, or as long and no larger |
| Palindromes.LargestIsLargest | src/string_palindromes.cc:39-41 | every palindrome of digits within the counts, without a leading zero, comes no later than the result |
| Palindromes.Decompose | src/string_palindromes.cc:92-111 | every palindrome of digits is its first half, its middle digit when its length is odd, and the half mirrored |
| Palindromes.CompareBuilt | src/string_palindromes.cc:70-89 | taking every pair largest digit first, and the largest left-over digit as the middle, beats any other choice of half and middle |
| RemoveDuplicates.AllRow1 | src/array_remove_duplicates.cc:119 | any result with the promised shape for {1,2,2,3,3} leaves {1,2,3}, 3 values |
| RemoveDuplicates.AllRow2 | src/array_remove_duplicates.cc:120 | any result with the promised shape for {1,1,2} leaves {1,2}, 2 values |
| RemoveDuplicates.AllRow3 | src/array_remove_duplicates.cc:121 | any result with the promised shape for {1} leaves {1}, 1 values |
| RemoveDuplicates.AllRow4 | src/array_remove_duplicates.cc:122 | any result with the promised shape for {1,2,2,3,4} leaves {1,2,3,4}, 4 values |
| RemoveDuplicates.AllRow5 | src/array_remove_duplicates.cc:123 | any result with the promised shape for {1,1,1,1,1,1} leaves {1}, 1 values |
| RemoveDuplicates.AllRow6 | src/array_remove_duplicates.cc:124 | any result with the promised shape for {} leaves {}, 0 values |
| RemoveDuplicates.AllRow7 | src/array_remove_duplicates.cc:125 | any result with the promised shape for {1,1,1,3} leaves {1,3}, 2 values |
| RemoveDuplicates.AllRow8 | src/array_remove_duplicates.cc:126 | any result with the promised shape for {1,1,1,3,3,3} leaves {1,3}, 2 values |
| RemoveDuplicates.AllRow9 | src/array_remove_duplicates.cc:127 | any result with the promised shape for {1,1,1,3,3,3,4} leaves {1,3,4}, 3 values |
| RemoveDuplicates.AllRow10 | src/array_remove_duplicates.cc:128 | any result with the promised shape for {1,1,1,3,3,3,4,4,4} leaves {1,3,4}, 3 values |
| RemoveDuplicates.AllRow11 | src/array_remove_duplicates.cc:129 | any result with the promised shape for {1,2,3,4} leaves {1,2,3,4}, 4 values |
| RemoveTwoDuplicates.ButTwoRow1 | src/array_remove_duplicates.cc:131 | any sorted result keeping each value of {1,2,2,2,3,3} at most twice is {1,2,2,3,3}, 5 values |
| RemoveTwoDuplicates.ButTwoRow2 | src/array_remove_duplicates.cc:132 | any sorted result keeping each value of {1} at most twice is {1}, 1 values |
| RemoveTwoDuplicates.ButTwoRow3 | src/array_remove_duplicates.cc:133 | any sorted result keeping each value of {} at most twice is {}, 0 values |
| RemoveTwoDuplicates.ButTwoRow4 | src/array_remove_duplicates.cc:134 | any sorted result keeping each value of {1,1,2,2,3,3} at most twice is {1,1,2,2,3,3}, 6 values |
| RemoveTwoDuplicates.ButTwoRow5 | src/array_remove_duplicates.cc:135 | any sorted result keeping each value of {1,1,1,1,2,2,2,2,3,3,3,3} at most twice is {1,1,2,2,3,3}, 6 values |
| RemoveTwoDuplicates.ButTwoRow6 | src/array_remove_duplicates.cc:136 | any sorted result keeping each value of {1,2,3} at most twice is {1,2,3}, 3 values |
| RemoveTwoDuplicates.ButTwoRow7 | src/array_remove_duplicates.cc:137 | any sorted result keeping each value of {1,1,1,1,1,1} at most twice is {1,1}, 2 values |
| RemoveTwoDuplicates.ButTwoRow8 | src/array_remove_duplicates.cc:138 | any sorted result keeping each value of {1,1,1,2,2,3} at most twice is {1,1,2,2,3}, 5 values |
| RemoveTwoDuplicates.KeptIsKeepTwo | src/array_remove_duplicates.cc:61-63 | a sorted result keeping each value of a sorted input min(count, 2) times is unique: it is the reference prefix |
| RemoveTwoDuplicates.SameKept | src/array_remove_duplicates.cc:61-63 | two sorted results keeping each value of the same input at most twice are equal |
| RemoveTwoDuplicates.SortedUnique | src/array_remove_duplicates.cc:61-63 | a sorted sequence is fixed by the multiset of its values |
| HashmapStrings.PatternExamplesFit | src/hashmap_strings.cc:222-223 | "aabb" fits "foo foo bar bar" and "abba" fits "dog cat cat dog" |
| HashmapStrings.PatternExamplesBreak | src/hashmap_strings.cc:224-227 | "abba" fits neither "dog cat cat fish" nor "foo foo foo foo", "aaaa" does not fit "dog cat cat dog", and "badc" does not fit "foo bar foo baz" |
| HashmapStrings.PatternExampleLonger | src/hashmap_strings.cc:229 | "aa" does not fit the three words of "foo foo bar" |
| HashmapStrings.WordsFooBarFoo | src/hashmap_strings.cc:220 | "foo bar foo" splits into foo, bar, foo |
| HashmapStrings.WordsFooBarBar | src/hashmap_strings.cc:221 | "foo bar bar" splits into foo, bar, bar |
| HashmapStrings.WordsFooFooBarBar | src/hashmap_strings.cc:222 | "foo foo bar bar" splits into four words |
| HashmapStrings.WordsDogCatCatDog | src/hashmap_strings.cc:223 | "dog cat cat dog" splits into four words |
| HashmapStrings.WordsDogCatCatFish | src/hashmap_strings.cc:224 | "dog cat cat fish" splits into four words |
| HashmapStrings.WordsFooFooFooFoo | src/hashmap_strings.cc:226 | "foo foo foo foo" splits into four words |
| HashmapStrings.WordsFooBarFooBaz | src/hashmap_strings.cc:227 | "foo bar foo baz" splits into foo, bar, foo, baz |
| HashmapStrings.WordsFooFooFoo | src/hashmap_strings.cc:228 | "foo foo foo" splits into three words |
| HashmapStrings.WordsFooFooBar | src/hashmap_strings.cc:229 | "foo foo bar" splits into foo, foo, bar |
| HashmapStrings.WordsFoo | src/hashmap_strings.cc:230 | "foo" is one word |
| HashmapStrings.Mismatch | src/hashmap_strings.cc:93-107 | a letter that repeats where its word does not, or the other way round, breaks the pattern |
| HashmapStrings.PrefixBreaks | src/hashmap_strings.cc:93-107 | once the letters read and the words read differ in shape, the whole pattern cannot fit |
| Sudoku.ValidExampleRows0 | src/array_sudoku.cc:157-166 | the first three rows of the fifth test grid each hold every digit |
| Sudoku.ValidExampleRows1 | src/array_sudoku.cc:157-166 | its middle three rows each hold every digit |
| Sudoku.ValidExampleRows2 | src/array_sudoku.cc:157-166 | its last three rows each hold every digit |
| Sudoku.ValidExampleColumns0 | src/array_sudoku.cc:157-166 | its first three columns each hold every digit |
| Sudoku.ValidExampleColumns1 | src/array_sudoku.cc:157-166 | its middle three columns each hold every digit |
| Sudoku.ValidExampleColumns2 | src/array_sudoku.cc:157-166 | its last three columns each hold every digit |
| Sudoku.ValidExampleBlocks0 | src/array_sudoku.cc:157-166 | its top three blocks each hold every digit |
| Sudoku.ValidExampleBlocks1 | src/array_sudoku.cc:157-166 | its middle three blocks each hold every digit |
| Sudoku.ValidExampleBlocks2 | src/array_sudoku.cc:157-166 | its bottom three blocks each hold every digit |
| Sudoku.SolvedGrid | src/array_sudoku.cc:157-166 | the fifth test grid is nine rows of nine cells |
| Sudoku.Column | src/array_sudoku.cc:95-101 | the column check reads cell (r, c) of each row r, top to bottom |
| Sudoku.BlockOf | src/array_sudoku.cc:72-78 | the block loop visits the blocks whose corners are multiples of three |
| UdpBuffer.Resize | src/udp_buffer.cc:28 | std::vector::resize leaves exactly n bytes: the old ones below n, zero bytes after them |
| UdpBuffer.ReorderBuffer.constructor | src/udp_buffer.cc:19-23 | the globals start with window start, latest number and contiguous count 0, an empty byte buffer and nothing received |
| Maze.Free | src/array_maze.cc:25-27 | a tile may be searched exactly when it is in the maze and not a wall |
| Maze.WallFree | src/array_maze.cc:58-59 | walling off visited tiles takes exactly them out of the open tiles and changes nothing but walls |
| RemoveElement.RemoveCountIsKept | src/array_remove_element.h:11 | on the second driver row the count remove returns is 5, the number of elements kept, while 3 elements are removed |

## Left out

- UdpBuffer.ReorderBuffer.ReceiveFromNetwork: sequence numbers are unbounded naturals, so the wrap-around of the uint32_t counters after 2^32 packets is not modelled.
- Cache.LruPolicy.ChooseEvictionTarget: requires at least one slot. With zero slots the C++ code reads `age_bits_[0]` of an empty vector (src/hashmap_cache.cc:37), which is undefined behaviour; the model does not cover that case.
- Cache.SetAssociativeCache.Set: requires at least one slot per set, for the same reason: a Set into a full set of zero slots evicts through ChooseEvictionTarget, which reads `age_bits_[0]` (src/hashmap_cache.cc:37) out of range.
- UdpBuffer.ReorderBuffer.ReceiveFromNetwork: requires a sequence number at or after the window start whose slot lies inside the buffer. A late or duplicate packet makes the uint32_t subtraction at src/udp_buffer.cc:45 wrap around, and a packet too far ahead gives a slot past the end; in both cases line 47 writes out of range, which is undefined behaviour, so the model does not cover those packets (see also Findings).
- ArraySearch.BinarySearch: requires a non-empty array, because src/array_search.cc:21 reads `nums[nums.size() - 1]`, which is out of range on an empty vector.
- Combinations.PhoneNumberLetters: requires digit characters only. src/array_combinations.cc:53-54 indexes `number_to_letter_map[c - '0']`, which is out of range for any other character; the model does not cover such input.
- DeadCode.EliminateDeadInstrs: requires a non-empty block, because src/dead_code.cc:16 takes `bb.instrs.back()`, which is undefined on an empty vector.
- TwoSum.FindTwoSum: integers are unbounded, so an overflow of `target - n` on int is not modelled.
- HashmapSequence.LongestConsecutiveSequence: integers are unbounded, so `n - 1` at INT_MIN and `n + 1` at INT_MAX do not overflow in the model.
- Cache.SetAssociativeCache.Set: the std::mutex and its lock_guard are left out, and the cache is modelled sequentially; that Get takes no lock is not modelled either. This is concurrency.
- Cache.SetAssociativeCache.constructor: requires at least one set, because hashing into zero sets divides by zero in the C++ code.
- Redis.ListFields: hgetall walks an unordered_map, whose order is unspecified; the model proves the JSON lists every field once in some order, not which order.
- HashmapStrings.GroupAnagrams: the groups come out of an unordered_map, so their order is unspecified; the model proves a grouping, unique up to the order of the groups (GroupingsAgree), not one order.
- Shift.ArrayShiftRight: requires a non-empty array, because the shift is reduced modulo the length, and a shift that fits in 32 bits, as the int parameter does.
- Permutations.NextPermutation: requires at least one digit, because `result.size() - 1` wraps around on an empty vector.
- Permutations.PreviousPermutation: requires at least one digit, for the same reason.
- Rain.TrappedRainWater: requires at least one height, because the C++ code reads the largest key of the height map, which an empty map does not have.
- Palindromes.LargestPalindrome: requires a string of digits only, because any other character indexes the digit counters out of range.
- JumpGame.CanSolve: requires non-negative steps. The C++ nums is a vector of int (src/array_jump_game.cc:24), and at line 41 a negative entry is converted to the size_t type of current_steps, where it becomes a huge value that counts as a jump long enough; the model drops that behaviour and does not cover negative entries.
- Intervals.IntervalSet.AddInterval: the float edges (src/math_intervals.cc:17-18) are modelled as reals, so rounding is not modelled.
- Segments.FastestSegment: requires `benchmark_distance / 10` to lie between 0 and the number of trackpoints; outside that range the size_t bound `size() - segment_length` of the C++ loop wraps around and the loop reads past the vector.
- Segments.FastestSegmentWithGaps: requires at least one trackpoint, because the C++ code reads the last one, and a segment length no longer than the expected index range, for the same wrap-around as above.
- DeadCode.LiveInstrs: requires a rank that every src1, src2 and decl edge lowers. The worklist has no visited set, so on operands that form a cycle the C++ walk never ends; the model does not cover that case.
- DeadCodeList.GetDeadInstrs: requires the same rank, for the same reason, and a non-empty block, because GetReturnStatementFromBlock reads `bb.back()`.
- ConstantFold.FoldConstants: pointers are indices into the three arenas of the block. The C++ code pushes new constants onto a vector that other operands point into; that this stays valid only while the vector has spare capacity (the fixture reserves 100 entries) is not modelled.
- IslandsIdentify.IsolateIslandChunks: chunk ids are unbounded integers. With the char ids of count_islands.cc, a grid with more than about 200 chunks would wrap around; that is not modelled.
- IslandsIdentify.MergeEquivalentIslandMap: the order in which an unordered_set hands out its ids is left open; the model pushes them in some order and proves the result for every order.
- IslandsIdentify.MergeEquivalentIslandMap: `const auto& from_id = working_set.top();` followed by `working_set.pop();` (src/graph_islands_identify.cc:175-176, src/count_islands.cc:120-121) keeps a reference to the element just popped, so every later use of from_id is undefined behaviour in C++. The model reads from_id as a copy of the top taken before the pop, which is what the code evidently means; it does not model the dangling reference.
- IslandsIdentify.CountIslands: the grid is a rectangular array2; rows of different lengths in the vector of vectors are not modelled. The same holds for the other island and maze routines.
- IslandsCount.CountIslands, IslandsSize.LargestIsland, IslandsEnclosedSpace.LargestEnclosedSpace and Maze.FindPath: rectangular array2 grids, as above.
- The island fixtures (get_simple_grid and the other grids of src/test_islands.h) are not part of this model: only their declarations are available, so the island routines are modelled without them.
- program.cc and src/get_sum_node_network.cc are not part of this model: they pass messages between threads.
- src/random_select.cc is not part of this model: it draws from a random number generator with floating-point weights.
- The test harness (src/test, src/test_helpers.h, src/runner.cc, src/array_stuff.cc, src/helpers.h), every printer and all VERBOSE output are left out. The expected values of the driver tables are kept as lemmas, except for the grids of src/graph_islands_size.cc:71-77 (largest island 5) and src/graph_islands_enclosed_space.cc:75-99 (largest enclosed spaces 0, 3, 2 and 0): their values would need the islands of each concrete grid worked out tile by tile, which this model does not do; the routines themselves are proved for every grid.
- The printing helpers in src/compiler_structs.cc and the driver loop of src/simple_optimizer.cc are left out.
- The stream plumbing of src/hashmap_backup_set.cc (istream, getline, ostream) is replaced by a string of lines.

## Findings

| source | as written | input that shows it | evidently intended | confidence | as-written member | corrected member |
|---|---|---|---|---|---|---|
| src/math_intervals.cc:51-66 | addInterval merges a new interval into a stored one without checking that they meet, so it covers a gap | adding [0, 1] to {[5, 6]} stores [0, 6], which covers 3 | merge only intervals that overlap; place the others apart | high, not executed | Intervals.AddCounterexample | Intervals.IntervalSet.AddIntervalChecked |
| src/array_remove_duplicates.cc:72-91 | sorted_array_remove_all_but_2_duplicates counts a copied-over element as a duplicate again | {1,1,1,2,2,3} returns 4 | the count of elements left, 5, each value kept at most twice | high, not executed | RemoveTwoDuplicates.ButTwoCounterexample | RemoveTwoDuplicates.RemoveAllButTwoDuplicates |
| src/math_permutations.cc:46-56 | after the swap, next_permutation_helper maximizes the rest but the swap partner is the last digit, not the largest smaller one | 9102 gives 9210, which is larger | the largest permutation smaller than the input, 9021 | high, not executed | Permutations.HelperCounterexample | Permutations.PreviousPermutation |
| src/math_permutations.cc:46-56 | the same helper carries a wrong digit into the rest | 9012 gives 2091 | 2910 | high, not executed | Permutations.HelperCounterexampleCarried | Permutations.PreviousPermutation |
| src/graph_city_skyline.cc:124-130 | find_skyline compares an edge with `*upper_bound(0)`, the least positive height in progress, although its comment asks for the tallest | a left edge of height 7 while 5 and 10 are in progress emits a step | compare with the tallest height in progress, so hidden edges emit nothing | medium, not executed | Skyline.HiddenCounterexample | Skyline.LeftVisible |
| src/dead_code.cc:53-65 | EliminateDeadInstrs never increments change_count, so it returns 0 | the fixture block, where two instructions are marked dead | the number of instructions marked dead, 2 | high, not executed | DeadCode.SimpleEliminated | DeadCode.MarkDead |
| src/array_remove_element.h:11 | the header says remove returns the number of removed elements, while the code and its driver return the number kept | {0,1,2,2,3,0,4,2} without 2 returns 5 while 3 are removed | the number of elements kept, as the driver expects; the header sentence is what is wrong | medium, not executed | RemoveElement.RemoveCountIsKept | RemoveElement.Remove |
| src/udp_buffer.cc:68 | SendToListener erases the delivered bytes from the front of the buffer, which InitBuffer sized to 256 bytes once (line 28), so the buffer shrinks by two bytes per delivered packet and nothing grows it back | InitBuffer, then packets 0 to 127 received in order, each delivered at once: the buffer is empty, and receiving packet 128 writes out of range at line 47 | the buffer keeps its size as the window moves, so every packet within 128 of the window start has a slot | high, not executed | UdpBuffer.InOrderAsWritten | UdpBuffer.ReorderBuffer.SendToListenerKeepingSize |
| src/array_maze.cc:134-145 | the driver expects the eleven-tile path that turns down at (0, 3), but find_path tries y + 1 before x + 1 (lines 74-83), so it walks on to (0, 4), is stopped by the walls right of it and turns down at (1, 4); test_find_path only prints both paths | the first maze of main_maze, from (0, 0) to (4, 6) | the expected path is the thirteen-tile route find_path returns; the search looks for a path, not a shortest one | high, not executed | Maze.MazeOneExpectedMissed | Maze.MazeOneSearch |
