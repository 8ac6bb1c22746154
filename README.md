# ruby-skiplist, modelled in Dafny

A model of the lock-free skip list of ruby-skiplist (after chapter 14 of *The
Art of Multiprocessor Programming*), run sequentially, with proofs that it
implements an ordered map. There are four parts:

- `sentinel.dfy` (module `Sentinel`) covers the keys. They are integers or
  one of the two sentinels `SentinelElement::MAX` and `SentinelElement::MIN`.
  The comparison `<=>` is modelled as the source evaluates it, including the
  `coerce` step when a number meets a sentinel. It is proved to be the
  strict total order in which MIN lies below everything and MAX above
  everything.
- `mlink.dfy` (module `MarkedLink`) covers the C extension `SkipList::MLink`.
  This is one machine word that holds a node reference with the deletion
  mark in its low bit. The model covers allocation, `initialize`,
  `compare_and_set` (with its argument order and its ArgumentError cases),
  `get` and `get_link`. It proves that the word and its
  (reference, mark) pair determine each other. So the skip list may treat a
  cell as a pair, and a compare-and-set on words compares pairs.
- `levels.dfy` (module `Levels`) covers `rand2exp`, the level generator. It
  is a loop over a random draw, and the draw is a parameter. The model proves
  that the result lies in 0 .. ex and equals ex minus the index of the highest
  set bit of 1 + draw. It also proves that exactly 2^(ex-i) of the
  2^(ex+1) - 1 possible draws give level i.
- `skiplist.dfy` (module `SkipLists`) covers the list itself.
  - `Node` is a class with a fixed-size array of (successor, mark) cells.
  - `SkipList` is a class with a head, a tail, a size and the operations
    `SkipList.new`, `find`, `lst[key]`, `lst[key] = val`, `delete`, `empty?`,
    `size` and `to_a`.
  - Each compare-and-set is one conditional update taken in sequence.
  - Ghost state gives the levels their meaning:
    - `chains[l]` is the node sequence from head to tail at level l;
    - `index` maps each key to its unmarked level-0 node;
    - `Contents()` is the map the list stands for.
  - The invariant `Valid()` says the following:
    - every level is linked head to tail in strictly ascending key order;
    - every unmarked node is the index entry of its key;
    - every entry is on each level up to its top;
    - a node is marked at all its levels or at none;
    - `size` is the number of entries.
  - Every operation keeps `Valid()` and states its effect on `Contents()`.

## Model

| member | source | states |
|---|---|---|
| Sentinel.Coerce | lib/skiplist/sentinelelement.rb:49-65 | `MAX.coerce(x)` is `[MIN, MAX]` and `MIN.coerce(x)` is `[MAX, MIN]`; the pair orders as the number orders against the sentinel |
| Sentinel.SentinelCmp | lib/skiplist/sentinelelement.rb:41-61 | a sentinel's `<=>` is 0 exactly against itself, negative exactly when the sentinel is below the other key, positive exactly when above |
| Sentinel.Cmp | lib/skiplist/sentinelelement.rb:27-66 | `a <=> b` as Ruby evaluates it lies in -1..1 and is 0, negative or positive exactly when a equals, lies below or lies above b in the designed order |
| Sentinel.Less | lib/skiplist/sentinelelement.rb:28 | `a < b` through Comparable (as called at lib/skiplist.rb lines 201 and 292) holds exactly when a lies below b in the designed order |
| Sentinel.Same | lib/skiplist/sentinelelement.rb:28 | `a == b` through Comparable (as called at lib/skiplist.rb lines 211 and 300) holds exactly when a and b are the same key |
| Sentinel.CmpAntisymmetric | lib/skiplist/sentinelelement.rb:28 | `<=>` is antisymmetric, so `<` through Comparable is trichotomous |
| Sentinel.LessTransitive | lib/skiplist/sentinelelement.rb:28 | `<` through Comparable is transitive |
| Sentinel.BelowTransitive | lib/skiplist/sentinelelement.rb:40-66 | the order MIN < numbers < MAX is transitive |
| Sentinel.MaxAboveAll | lib/skiplist/sentinelelement.rb:41-47 | `MAX <=> k` is 1 for every other key, so `MAX < k` and `MAX == k` are false and `k < MAX` holds; this stops a search at the tail |
| Sentinel.MinBelowAll | lib/skiplist/sentinelelement.rb:55-61 | `MIN <=> k` is -1 for every other key |
| Sentinel.CoerceOrdersNumbers | lib/skiplist/sentinelelement.rb:49-65 | through `coerce`, a number orders below MAX and above MIN |
| MarkedLink.LinkOf | ext/skiplist/skiplist_mlink.c:104 | `word & ~1` is even and differs from the word at most in the low bit |
| MarkedLink.MarkOf | ext/skiplist/skiplist_mlink.c:103 | the mark is set exactly when the word differs from its link part |
| MarkedLink.Pack | ext/skiplist/skiplist_mlink.c:88-89 | `link \| !!mark` on an even link decodes to that link and that mark |
| MarkedLink.PackOfParts | ext/skiplist/skiplist_mlink.c:102-106 | every word is the packing of the pair `get` returns |
| MarkedLink.PackInjective | ext/skiplist/skiplist_mlink.c:88-91 | two packed words are equal exactly when their pairs are equal |
| MarkedLink.Cas | ext/skiplist/skiplist_mlink.c:27-31 | compare-and-swap succeeds exactly when the word equals the expected one, and then holds the new one; otherwise the word is kept |
| MarkedLink.CasComparesPairs | ext/skiplist/skiplist_mlink.c:88-91 | a CAS on packed words succeeds exactly when the cell holds the expected (link, mark) pair, and it then holds the new pair |
| MarkedLink.MarkOnlyFlipsTheBit | ext/skiplist/skiplist_mlink.c:88-91 | `compare_and_set(l, l, false, true)` on an unmarked cell holding l succeeds and sets the mark only |
| MarkedLink.MLink.Alloc | ext/skiplist/skiplist_mlink.c:45-54 | a fresh cell holds the word 0 |
| MarkedLink.MLink.Initialize | ext/skiplist/skiplist_mlink.c:56-70 | an odd link raises ArgumentError and keeps the word; an even one is stored unmarked |
| MarkedLink.MLink.CompareAndSet | ext/skiplist/skiplist_mlink.c:72-92 | odd links raise one ArgumentError and non-boolean marks another, word kept; otherwise true exactly when the cell held (oldlink, oldmark), and then it holds (newlink, newmark), else it is unchanged |
| MarkedLink.MLink.Get | ext/skiplist/skiplist_mlink.c:94-107 | returns an even link and a mark that pack back to the stored word |
| MarkedLink.MLink.GetLink | ext/skiplist/skiplist_mlink.c:109-117 | returns the even link part, the first component of `get` |
| Levels.HighBit | lib/skiplist.rb:133-136 | the index h of the highest set bit: 2^h <= r < 2^(h+1) |
| Levels.HighBitUnique | lib/skiplist.rb:133-137 | those bounds determine the index |
| Levels.MaskBit | lib/skiplist.rb:133 | for a power-of-two mask and r below twice it, `r & mask == 0` exactly when r < mask |
| Levels.Rand2Exp | lib/skiplist.rb:128-138 | for every draw in range the loop ends, and the result lies in 0..ex and equals ex minus the highest set bit of 1 + draw |
| Levels.GivesIffInRange | lib/skiplist.rb:127-138 | a draw gives level i exactly when it lies in 2^(ex-i) - 1 .. 2^(ex-i+1) - 2 |
| Levels.LevelFrequency | lib/skiplist.rb:127 | exactly 2^(ex-i) of the 2^(ex+1) - 1 draws give level i: a half for 0, a quarter for 1, and so on |
| SkipLists.Node.constructor | lib/skiplist.rb:55-60 | a node has the given top level, key and value, and toplevel + 1 fresh cells |
| SkipLists.Node.CompareAndSet | lib/skiplist.rb:193 | `node[level].compare_and_set` on the pair view succeeds exactly when the cell holds the expected pair, then holds the new pair; no other level changes |
| SkipLists.Node.MarkAt | lib/skiplist.rb:327-331 | the `until mark` loop of `delete` ends with the cell marked and its successor kept; no other level changes |
| SkipLists.SkipList.New | lib/skiplist.rb:90-93 | a negative level_max raises ArgumentError; otherwise the new list is valid, empty, with size 0 |
| SkipLists.SkipList.constructor | lib/skiplist.rb:90-108 | every head cell points unmarked to the tail, every tail cell is (nil, unmarked), the tail key is max_element or MAX, size is 0, the map is empty and the list is valid |
| SkipLists.SkipList.EmptyIsValid | lib/skiplist.rb:96-104 | a head linked straight to the tail at every level is a valid empty list |
| SkipLists.SkipList.Ascending | lib/skiplist.rb:201-206 | on each level keys ascend strictly from any node to any later one |
| SkipLists.SkipList.Distinct | lib/skiplist.rb:201-206 | a node stands at one position of a level only |
| SkipLists.SkipList.Located | lib/skiplist.rb:300-304 | where a level-0 search stops, the stopping node holds the key exactly when the key is in the map, and is then its entry |
| SkipLists.SkipList.Stop | lib/skiplist.rb:201-209 | a level of the search stops between the head or an entry and the tail or an entry, above the key when the key is absent |
| SkipLists.SkipList.Advance | lib/skiplist.rb:285-298 | one level of `lst[key]` steps over marked nodes and stops at an unmarked node below the key whose next unmarked node is not below it |
| SkipLists.SkipList.WalkLevel | lib/skiplist.rb:283-299 | one level of `lst[key]` leaves the list unchanged and ends at the head or an entry taking part in the next level |
| SkipLists.SkipList.Get | lib/skiplist.rb:280-305 | `lst[key]` is the key's value in the map, or nil when absent; the list stays valid |
| SkipLists.SkipList.SnipLinked | lib/skiplist.rb:193-199 | after a snip the level is still linked head to tail |
| SkipLists.SkipList.SnipOrdered | lib/skiplist.rb:193-199 | after a snip the level is still ordered |
| SkipLists.SkipList.SnipIndexed | lib/skiplist.rb:193-199 | after a snip every unmarked node on the level is still its key's entry |
| SkipLists.SkipList.IndexAfterSnip | lib/skiplist.rb:193-199 | snipping a marked node keeps every entry on each of its levels |
| SkipLists.SkipList.SnipKeeps | lib/skiplist.rb:193-199 | a snip keeps the whole invariant |
| SkipLists.SkipList.Unlink | lib/skiplist.rb:193 | the CAS of a snip succeeds and removes exactly the snipped node from that level's sequence |
| SkipLists.SkipList.Snip | lib/skiplist.rb:192-199 | snipping a marked successor succeeds, removes exactly that node from that one level, links past it, and keeps the map, the size and validity |
| SkipLists.SkipList.SnipNext | lib/skiplist.rb:192-199 | one snip shortens the level and leaves the others alone |
| SkipLists.SkipList.SnipRun | lib/skiplist.rb:191-200 | the inner `while mark` loop of `find` ends with an unmarked successor, having changed only that level |
| SkipLists.SkipList.StepRight | lib/skiplist.rb:190-207 | one pass of a level of `find`: snip, then step right or stop at a key not below the sought one |
| SkipLists.SkipList.WalkRight | lib/skiplist.rb:190-207 | one level of `find` stops at p below the key, linked to an unmarked node not below it |
| SkipLists.SkipList.FindLevel | lib/skiplist.rb:189-209 | one level of `find` records a window `before.key < key <= after.key` at the head or entries; the map is unchanged |
| SkipLists.SkipList.Descend | lib/skiplist.rb:185-210 | the descent of `find` records such a window at every level |
| SkipLists.SkipList.Linkage | lib/skiplist.rb:208-209 | at each recorded window, `before` links unmarked to `after`, itself unmarked |
| SkipLists.SkipList.Find | lib/skiplist.rb:184-216 | after `find`, at every level `before_list[l].key < key <= after_list[l].key` with `before_list[l]` linked unmarked to `after_list[l]`; it answers the key's entry (the level-0 successor) exactly when the key is in the map, else nil; the map is unchanged |
| SkipLists.SkipList.InsertLinked | lib/skiplist.rb:247 | linking a node into a level keeps it linked |
| SkipLists.SkipList.InsertOrdered | lib/skiplist.rb:247 | linking a node between smaller and larger keys keeps the level ordered |
| SkipLists.SkipList.InsertIndexed | lib/skiplist.rb:247 | linking an entry keeps every unmarked node indexed |
| SkipLists.SkipList.NodesAfterAdd | lib/skiplist.rb:243-247 | adding a fresh unmarked node keeps the node invariant |
| SkipLists.SkipList.IndexAfterAdd | lib/skiplist.rb:247 | entering the new node leaves it as the only entry not yet on all its levels |
| SkipLists.SkipList.IndexAfterLink | lib/skiplist.rb:255 | linking the pending entry into an upper level keeps the other entries on their levels |
| SkipLists.SkipList.LevelsAfterInsert | lib/skiplist.rb:247-255 | an insertion leaves every other level valid |
| SkipLists.SkipList.Added | lib/skiplist.rb:247-252 | the level-0 link of a new node keeps the invariant, with the node pending on the upper levels |
| SkipLists.SkipList.SpliceBottom | lib/skiplist.rb:247-252 | the level-0 CAS succeeds, inserts the node right after `before_list[0]`, enters its key and adds one to the size |
| SkipLists.SkipList.LinkBottom | lib/skiplist.rb:247-252 | the level-0 link on the window `find` left keeps the invariant with the new node pending |
| SkipLists.SkipList.Raised | lib/skiplist.rb:255 | an upper-level link keeps the invariant with the node pending |
| SkipLists.SkipList.SpliceUp | lib/skiplist.rb:255 | the upper-level CAS succeeds and inserts the node right after `before_list[level]` on that level only |
| SkipLists.SkipList.LinkLevel | lib/skiplist.rb:254-259 | one upper-level link keeps the invariant, the map and the size |
| SkipLists.SkipList.Settled | lib/skiplist.rb:253-260 | once the new node is on all its levels the list is valid |
| SkipLists.SkipList.SetVal | lib/skiplist.rb:238-240 | overwriting the entry's value maps the key to the new value and changes nothing else |
| SkipLists.SkipList.NewNode | lib/skiplist.rb:243-246 | the new node's cell at each level holds `after_list[l]` unmarked |
| SkipLists.SkipList.RaiseOne | lib/skiplist.rb:254-259 | one pass of the upper loop links the node at one more level |
| SkipLists.SkipList.LinkUpper | lib/skiplist.rb:253-260 | the upper loop links the node into levels 1..toplevel and makes the list valid |
| SkipLists.SkipList.EntryKept | lib/skiplist.rb:253-260 | entering a fresh key keeps the recorded windows at the head or entries |
| SkipLists.SkipList.Insert | lib/skiplist.rb:242-261 | the insertion branch adds exactly the new node, adds its key with its value to the map and one to the size |
| SkipLists.SkipList.ContentsKept | lib/skiplist.rb:184-216 | with the same entries and values, the map is unchanged |
| SkipLists.SkipList.ContentsAdded | lib/skiplist.rb:242-261 | entering a node maps its key to its value and keeps the rest |
| SkipLists.SkipList.InsertBottom | lib/skiplist.rb:247-252 | the level-0 part of an insertion enters the key, adds one to the size, and leaves the upper windows ready |
| SkipLists.SkipList.Put | lib/skiplist.rb:234-264 | `lst[key] = val` maps key to val and leaves the rest of the map alone; the size grows by one exactly when the key was absent; it returns val; the list stays valid; for an absent key the new entry has `rand2exp(level_max)` levels and stands on each of them |
| SkipLists.SkipList.Add | lib/skiplist.rb:242-261 | the key maps to val and the size grows by one; the key's new entry has top level `rand2exp(level_max)` = level_max minus the highest set bit of 1 + draw, and stands on every level 0 .. that top level |
| SkipLists.SkipList.MarkedLevel | lib/skiplist.rb:327-331 | marking a cell, successor kept, keeps its level valid |
| SkipLists.SkipList.NodesMarked | lib/skiplist.rb:326-335 | marking the node being deleted keeps the node invariant, fully once all its cells are marked |
| SkipLists.SkipList.IndexMarked | lib/skiplist.rb:327-331 | marking an upper cell keeps every entry on its levels |
| SkipLists.SkipList.IndexRemoved | lib/skiplist.rb:335-342 | dropping the marked node's key keeps the index invariant |
| SkipLists.SkipList.MarkedAbove | lib/skiplist.rb:326-332 | marking one more upper cell keeps the marking state |
| SkipLists.SkipList.MarkLevel | lib/skiplist.rb:327-331 | one pass of the upper loop marks one more level |
| SkipLists.SkipList.MarkUpper | lib/skiplist.rb:326-332 | `p.toplevel.downto(1)` marks every upper cell of the node |
| SkipLists.SkipList.MarkedBottom | lib/skiplist.rb:333-346 | marking level 0 and dropping the key gives a valid list |
| SkipLists.SkipList.MarkBottom | lib/skiplist.rb:333-346 | the level-0 CAS succeeds, the size drops by one, the key leaves the index, and the answer is the node's value |
| SkipLists.SkipList.StartMarking | lib/skiplist.rb:326 | a valid list is in the state marking starts from |
| SkipLists.SkipList.Remove | lib/skiplist.rb:326-346 | marking all levels, top down, removes exactly the key and one from the size |
| SkipLists.SkipList.ContentsRemoved | lib/skiplist.rb:320-347 | dropping a key from the index drops it from the map |
| SkipLists.SkipList.Delete | lib/skiplist.rb:320-347 | `delete` answers the key's old value or nil, removes exactly the key from the map, takes one from the size exactly when the key was present, keeps the list valid, and leaves the marked node linked at level 0 |
| SkipLists.SkipList.ContentsKeys | lib/skiplist.rb:83 | the map's keys are the entries, and `size` is their number |
| SkipLists.SkipList.EntryOnBottom | lib/skiplist.rb:147-155 | every entry stands unmarked between head and tail on level 0 |
| SkipLists.SkipList.EmptyIffAllMarked | lib/skiplist.rb:147-155 | the first unmarked node after the head is the tail exactly when the map is empty |
| SkipLists.SkipList.IsEmpty | lib/skiplist.rb:147-155 | `empty?` is true exactly when the map is empty, and exactly when size is 0 |
| SkipLists.SkipList.Size | lib/skiplist.rb:83 | `size` is the number of keys in the map |
| SkipLists.SkipList.BottomCells | lib/skiplist.rb:170-178 | what `to_a` reads: key, value and level-0 mark of each level-0 node from head to tail |
| SkipLists.SkipList.BottomAscends | lib/skiplist.rb:164-168 | level 0 ascends from head to the unmarked tail |
| SkipLists.SkipList.BottomUnmarkedIn | lib/skiplist.rb:164-168 | each unmarked node of level 0 holds a key of the map with its value |
| SkipLists.SkipList.BottomCovers | lib/skiplist.rb:164-168 | each key of the map is on an unmarked node of level 0 |
| SkipLists.SkipList.BottomShowsMap | lib/skiplist.rb:164-168 | the level 0 of a valid list shows its map |
| SkipLists.PushedAsWrittenSnoc | lib/skiplist.rb:173-177 | the loop as written pushes the next node exactly when the cell that led to it is unmarked |
| SkipLists.PushedUnmarkedSnoc | lib/skiplist.rb:173-177 | the intended loop pushes the next node exactly when its own cell is unmarked |
| SkipLists.Pop | lib/skiplist.rb:179 | `arr.pop` removes the last element, and leaves an empty array empty |
| SkipLists.UnmarkedAscend | lib/skiplist.rb:164-168 | the pairs of unmarked nodes ascend |
| SkipLists.UnmarkedPairs | lib/skiplist.rb:164-168 | the pairs of unmarked nodes are pairs of the map, and every unmarked node is listed |
| SkipLists.PopTail | lib/skiplist.rb:179 | with an unmarked tail, `pop` takes back exactly the tail's pair |
| SkipLists.UnmarkedCovers | lib/skiplist.rb:164-168 | every key of the map is listed before the tail |
| SkipLists.UnmarkedListMap | lib/skiplist.rb:164-181 | the unmarked nodes, tail popped, list the map in ascending key order |
| SkipLists.AsWrittenUnmarked | lib/skiplist.rb:172-178 | with no cell marked, the loop as written pushes what the intended loop pushes |
| SkipLists.SkipList.PushAsWritten | lib/skiplist.rb:171-178 | the loop of `to_a`, as written, pushes `PushedAsWritten` of level 0 |
| SkipLists.SkipList.ToA | lib/skiplist.rb:170-181 | `to_a` as written answers the pairs the predecessor-mark loop pushes, last one popped |
| SkipLists.SkipList.ToAListsMapUnmarked | lib/skiplist.rb:164-181 | while no level-0 node is marked, `to_a` as written lists the map's pairs in ascending key order, tail excluded |
| SkipLists.ToAListsDeleted | lib/skiplist.rb:170-181 | counterexample: after a delete, whose marked node stays linked, `to_a` as written lists the deleted pair and omits a live one |
| SkipLists.SkipList.PushUnmarked | lib/skiplist.rb:171-178 | the loop reading each node's own mark pushes the pairs of the unmarked nodes |
| SkipLists.SkipList.ToACorrected | lib/skiplist.rb:170-181 | `to_a` with each node's own mark lists exactly the map's pairs in ascending key order |

## Left out

- Concurrency is left out. Interleavings, lock-freedom, linearizability and
  the hardware atomicity of `__sync_bool_compare_and_swap` are not modelled.
  Each compare-and-set is one sequential step.
- The branches that only run under contention are left out. These are the
  restart of `find` through `tag.next` after a failed snip, the `next` after
  a failed level-0 link in `lst[key] = val`, and the retry of an upper-level
  link. Run alone, these compare-and-sets succeed, and `Snip`, `SpliceBottom`
  and `SpliceUp` prove that they do. The `until mark` loops and the
  `elsif mark` exit of `delete` are modelled as written, and run alone they
  end after one attempt.
- `Loop` (lib/skiplist/loop.rb) is not part of this model. Its `next` and
  `break` only restart or end `find`, and run alone `find` never restarts.
- The Mutex `@size_lock` is not modelled, because it only serialises
  `@size` updates between threads.
- `@randgen` and `Random#rand` are not modelled. The draw is a parameter of
  `Levels.Rand2Exp` and `SkipLists.SkipList.Put`, and `Levels.LevelFrequency`
  counts draws rather than stating a probability.
- `@cmp_op` is not modelled. It is stored but never consulted.
- `print_debug` (all files) and the demo block at the end of lib/skiplist.rb
  are not modelled, because they only print.
- GC marking (`mlink_mark`), `Data_Make_Struct`, `Init_skiplist_mlink` and
  the Ruby VALUE representation beyond the low bit are not modelled, because
  they are runtime glue.
- Keys are integers, and `max_element` is an integer or absent. Arbitrary
  Comparable Ruby objects are not modelled.
- The head's key is `nil` in the source and is never compared. Here it is
  MIN.
- SkipLists.Node stores each cell as a (successor, mark) pair rather than a
  `MLink` word. `MarkedLink.CasComparesPairs` and `MarkedLink.PackInjective`
  show that the two views agree.
- SkipLists.SkipList.Get, SkipLists.SkipList.Find,
  SkipLists.SkipList.Put and SkipLists.SkipList.Delete require a key strictly
  below the tail's key (`Fits`). The source misbehaves on other keys when
  `max_element` is given, and the model does not cover that misuse:
  - a larger key makes its searches run past the tail;
  - a key equal to `max_element` makes `find` stop at the tail and return it
    (lib/skiplist.rb:201, 211-212), so `[]=` overwrites the tail's value
    (line 239) and `[]` returns it (lines 300-301);
  - `delete` of that key marks every tail cell and decrements the size
    (lines 329-340), and the next `find` snips the tail, reads `nil` (line
    198) and fails on `nil[level]` (line 199).
- SkipLists.SkipList.Valid states that a node is on every level 0 .. its top
  level only for the live entries (unmarked nodes, in `IndexOk`). A marked
  node that `delete` leaves linked, and that later snips take off one level
  at a time, is only known to be on each level's ordered chain, not on every
  level below the ones it still occupies.
- SkipLists.SkipList.Put requires a draw in 0 .. 2^(level_max+1) - 2, the
  range `@randgen.rand(mask - 1)` produces.
- Composed behaviour is only stated through the two contracts, with no
  single lemma. For example, `lst[key]` answers nil after `delete key`:
  `Delete` states the key leaves `Contents()`, and `Get` answers from
  `Contents()`.

## Findings

| source | as written | input that shows it | evidently intended | confidence | as-written member | corrected member |
|---|---|---|---|---|---|---|
| lib/skiplist.rb:172-178 | `to_a` pushes a node when the mark read together with it is clear, and that mark belongs to the predecessor's level-0 cell, not the node's own | put 1 => a, put 2 => b, delete 1 (node 1 stays linked, marked); then `to_a` gives `[[1, a]]` while the map is {2 => b} | push a node when its own level-0 cell is unmarked, giving `[[2, b]]` | not executed | SkipLists.ToAListsDeleted | SkipLists.SkipList.ToACorrected |

`SkipLists.SkipList.ToA` models `to_a` as written. `ToAListsDeleted` shows
the discrepancy on the level 0 that `delete` leaves behind, and `Delete`
proves that the marked node does stay linked there.
`SkipLists.SkipList.ToAListsMapUnmarked` proves that the documented result
holds as long as no level-0 node is marked. `SkipLists.SkipList.ToACorrected`
proves that the corrected loop lists the map in every valid state.
