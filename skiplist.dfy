/** The lock-free skip list of `lib/skiplist.rb`, run sequentially.

    Nodes are heap objects with one (successor, mark) cell per level they take
    part in. Every compare-and-set is one conditional update taken in sequence;
    under that reading the retry paths of the source are unreachable, and the
    model proves so where they occur.

    Ghost state gives the meaning of the linked levels: `chains[l]` lists the
    nodes met between head and tail when following level-l links, `index` maps
    each key of the map to its unmarked node, `nodes` is every node ever linked
    (it only grows), and `owner` shows that no two nodes share a link array. */
module SkipLists {
  import opened Sentinel
  import Levels
  import MarkedLink

  datatype Option<T> = None | Some(value: T)

  /** A node's cell at one level: its successor there and the deletion mark
      (the pair `MLink#get` returns; see module MarkedLink for the word). */
  datatype Link<V> = Link(ref: Node?<V>, mark: bool)

  /** `SkipList::Node`: a key, a mutable value, a top level and a fixed-size
      array of link cells, one for each level 0 .. toplevel. */
  class Node<V> {
    const toplevel: nat
    const key: Element
    var val: Option<V>
    const links: array<Link<V>>

    /** `Node.new toplevel, key, val`; the cells start empty (nil successor,
        unmarked) until the caller stores one in each. */
    constructor (toplevel: nat, key: Element, val: Option<V>)
      ensures this.toplevel == toplevel && this.key == key && this.val == val
      ensures fresh(links) && links.Length == toplevel + 1
      ensures forall l :: 0 <= l < links.Length ==> links[l] == Link(null, false)
    {
      this.toplevel := toplevel;
      this.key := key;
      this.val := val;
      links := new Link<V>[toplevel + 1](_ => Link(null, false));
    }

    /** `node[level].compare_and_set oldRef, newRef, oldMark, newMark`: if
        the cell holds (oldRef, oldMark) it now holds (newRef, newMark) and
        the answer is true; otherwise nothing changes. No other level is
        touched. */
    method CompareAndSet(level: nat, oldRef: Node?<V>, newRef: Node?<V>, oldMark: bool, newMark: bool)
      returns (ok: bool)
      requires level < links.Length
      modifies links
      ensures ok <==> old(links[level]) == Link(oldRef, oldMark)
      ensures links[level] == if ok then Link(newRef, newMark) else old(links[level])
      ensures forall l :: 0 <= l < links.Length && l != level ==> links[l] == old(links[l])
    {
      ok := links[level] == Link(oldRef, oldMark);
      if ok {
        links[level] := Link(newRef, newMark);
      }
    }
    /** The loop `until mark` of `delete` on this node's cell at `level`:
        while the cell reads unmarked, compare-and-set it from its successor
        unmarked to the same successor marked. The cell ends marked with its
        successor kept, and no other cell changes. */
    method MarkAt(level: nat)
      requires level < links.Length
      modifies links
      ensures links[level] == Link(old(links[level].ref), true)
      ensures forall l :: 0 <= l < links.Length && l != level ==> links[l] == old(links[l])
    {
      var pp, mark := links[level].ref, links[level].mark;
      while !mark
        invariant links[level] == Link(pp, mark) && pp == old(links[level].ref)
        invariant forall l :: 0 <= l < links.Length && l != level ==> links[l] == old(links[l])
        decreases if mark then 0 else 1
      {
        var ok := CompareAndSet(level, pp, pp, false, true);
        pp, mark := links[level].ref, links[level].mark;
      }
    }
  }


  /** `s` with the element at `q` removed. */
  function RemoveAt<T>(s: seq<T>, q: nat): (r: seq<T>)
    requires q < |s|
    ensures |r| == |s| - 1
    ensures forall i :: 0 <= i < q ==> r[i] == s[i]
    ensures forall i :: q <= i < |r| ==> r[i] == s[i + 1]
  {
    s[..q] + s[q + 1..]
  }

  /** `s` with `x` inserted at `q`. */
  function InsertAt<T>(s: seq<T>, q: nat, x: T): (r: seq<T>)
    requires q <= |s|
    ensures |r| == |s| + 1 && r[q] == x
    ensures forall i :: 0 <= i < q ==> r[i] == s[i]
    ensures forall i :: q < i < |r| ==> r[i] == s[i - 1]
  {
    s[..q] + [x] + s[q..]
  }

  /** What `to_a` reads of a level-0 node: its key, its value and the mark
      of its level-0 cell. */
  datatype Cell<V> = Cell(key: Element, val: Option<V>, mark: bool)

  /** The pairs the loop of `to_a` pushes while it walks `cells` from the
      head, AS WRITTEN: a node is pushed when the mark read together with it
      is clear, and that mark is the one of the cell that links to it, its
      predecessor's. */
  function PushedAsWritten<V>(cells: seq<Cell<V>>): (r: seq<(Element, Option<V>)>)
    ensures |r| < |cells| || cells == []
  {
    if |cells| <= 1 then []
    else
      var last := cells[|cells| - 1];
      PushedAsWritten(cells[..|cells| - 1]) + (if cells[|cells| - 2].mark then [] else [(last.key, last.val)])
  }

  /** The pairs of the nodes after the head whose own level-0 cell is
      unmarked, in order: what the loop of `to_a` is meant to push. */
  function PushedUnmarked<V>(cells: seq<Cell<V>>): (r: seq<(Element, Option<V>)>)
    ensures |r| < |cells| || cells == []
  {
    if |cells| <= 1 then []
    else
      var last := cells[|cells| - 1];
      PushedUnmarked(cells[..|cells| - 1]) + (if last.mark then [] else [(last.key, last.val)])
  }

  /** One more cell read by the loop as written is pushed when the cell
      before it is unmarked. */
  lemma PushedAsWrittenSnoc<V>(cells: seq<Cell<V>>, x: Cell<V>)
    requires 1 <= |cells|
    ensures PushedAsWritten(cells + [x])
            == PushedAsWritten(cells) + (if cells[|cells| - 1].mark then [] else [(x.key, x.val)])
  {
    assert (cells + [x])[..|cells|] == cells;
    assert (cells + [x])[|cells| - 1] == cells[|cells| - 1];
  }

  /** One more cell read by the intended loop is pushed when it is unmarked. */
  lemma PushedUnmarkedSnoc<V>(cells: seq<Cell<V>>, x: Cell<V>)
    requires 1 <= |cells|
    ensures PushedUnmarked(cells + [x]) == PushedUnmarked(cells) + (if x.mark then [] else [(x.key, x.val)])
  {
    assert (cells + [x])[..|cells|] == cells;
  }

  /** One more cell read after position j pushes its pair when unmarked. */
  lemma PushedUnmarkedNext<V>(cells: seq<Cell<V>>, j: int)
    requires 1 <= j < |cells|
    ensures PushedUnmarked(cells[..j + 1])
            == PushedUnmarked(cells[..j]) + (if cells[j].mark then [] else [(cells[j].key, cells[j].val)])
  {
    assert cells[..j + 1][..j] == cells[..j];
  }

  /** `arr.pop` for its effect on `arr`: the last element goes, and an
      empty array stays empty. */
  function Pop<T>(s: seq<T>): (r: seq<T>)
    ensures s == [] ==> r == []
    ensures s != [] ==> r + [s[|s| - 1]] == s
  {
    if s == [] then [] else s[..|s| - 1]
  }

  /** Keys ascend along `cells`, whose last cell is unmarked. */
  ghost predicate Ascend<V>(cells: seq<Cell<V>>) {
    && 2 <= |cells| && !cells[|cells| - 1].mark
    && forall a :: 0 <= a < |cells| - 1 ==> Below(cells[a].key, cells[a + 1].key)
  }

  /** Each unmarked cell strictly between the first and the last holds a
      key of `m` with its value. */
  ghost predicate UnmarkedIn<V>(cells: seq<Cell<V>>, m: map<int, V>) {
    forall i :: 0 < i < |cells| - 1 && !cells[i].mark ==>
      cells[i].key.Num? && cells[i].key.n in m && cells[i].val == Some(m[cells[i].key.n])
  }

  /** What a level 0 read as `cells` must be for a map `m`: head to tail,
      keys ascending, the tail unmarked, each unmarked node between holding
      a key of `m` with its value, and each key of `m` on such a node. */
  ghost predicate ShowsMap<V>(cells: seq<Cell<V>>, m: map<int, V>) {
    && Ascend(cells) && UnmarkedIn(cells, m)
    && (forall k :: k in m ==> exists i :: 0 < i < |cells| - 1 && !cells[i].mark && cells[i].key == Num(k))
  }

  /** `arr` lists the map `m` as `to_a` promises: pairs of a key and its
      value, keys strictly ascending, every key present. */
  ghost predicate ListsMap<V>(arr: seq<(Element, Option<V>)>, m: map<int, V>) {
    && (forall i :: 0 <= i < |arr| ==> arr[i].0.Num? && arr[i].0.n in m && arr[i].1 == Some(m[arr[i].0.n]))
    && (forall i, i' :: 0 <= i < i' < |arr| ==> Below(arr[i].0, arr[i'].0))
    && (forall k :: k in m ==> (Num(k), Some(m[k])) in arr)
  }

  /** Up to position j of an ascending level 0, the unmarked nodes' pairs
      ascend and stay below the key at j. */
  lemma {:induction false} UnmarkedAscend<V>(cells: seq<Cell<V>>, j: int)
    requires Ascend(cells) && 1 <= j < |cells|
    ensures var l := PushedUnmarked(cells[..j]);
            && (forall i, i' :: 0 <= i < i' < |l| ==> Below(l[i].0, l[i'].0))
            && (forall i :: 0 <= i < |l| ==> Below(l[i].0, cells[j].key))
  {
    if j > 1 {
      UnmarkedAscend(cells, j - 1);
      PushedUnmarkedNext(cells, j - 1);
      var l := PushedUnmarked(cells[..j - 1]);
      forall i | 0 <= i < |l|
        ensures Below(l[i].0, cells[j].key)
      {
        BelowTransitive(l[i].0, cells[j - 1].key, cells[j].key);
      }
    }
  }

  /** Up to position j, the unmarked nodes' pairs are pairs of `m` and
      include every unmarked node before j. */
  lemma {:induction false} UnmarkedPairs<V>(cells: seq<Cell<V>>, m: map<int, V>, j: int)
    requires UnmarkedIn(cells, m) && 1 <= j < |cells|
    ensures var l := PushedUnmarked(cells[..j]);
            && (forall i :: 0 <= i < |l| ==> l[i].0.Num? && l[i].0.n in m && l[i].1 == Some(m[l[i].0.n]))
            && (forall q :: 0 < q < j && !cells[q].mark ==> (cells[q].key, cells[q].val) in l)
  {
    if j > 1 {
      UnmarkedPairs(cells, m, j - 1);
      PushedUnmarkedNext(cells, j - 1);
      var l, l' := PushedUnmarked(cells[..j - 1]), PushedUnmarked(cells[..j]);
      forall q | 0 < q < j && !cells[q].mark
        ensures (cells[q].key, cells[q].val) in l'
      {
        if q < j - 1 {
          assert (cells[q].key, cells[q].val) in l;
        }
      }
    }
  }

  /** With an unmarked last cell, `pop` takes back exactly the last cell's
      pair. */
  lemma PopTail<V>(cells: seq<Cell<V>>)
    requires 2 <= |cells| && !cells[|cells| - 1].mark
    ensures Pop(PushedUnmarked(cells)) == PushedUnmarked(cells[..|cells| - 1])
  {
    PushedUnmarkedNext(cells, |cells| - 1);
    assert cells[..|cells|] == cells;
  }

  /** Every key of a map that level 0 shows is listed before the tail. */
  lemma UnmarkedCovers<V>(cells: seq<Cell<V>>, m: map<int, V>)
    requires ShowsMap(cells, m)
    ensures forall k :: k in m ==> (Num(k), Some(m[k])) in PushedUnmarked(cells[..|cells| - 1])
  {
    var n := |cells|;
    UnmarkedPairs(cells, m, n - 1);
    var l := PushedUnmarked(cells[..n - 1]);
    forall k | k in m
      ensures (Num(k), Some(m[k])) in l
    {
      var i :| 0 < i < n - 1 && !cells[i].mark && cells[i].key == Num(k);
      assert (cells[i].key, cells[i].val) in l;
    }
  }

  /** The unmarked nodes of a level 0 that shows `m`, with the tail's pair
      popped, list `m`. */
  lemma UnmarkedListMap<V>(cells: seq<Cell<V>>, m: map<int, V>)
    requires ShowsMap(cells, m)
    ensures ListsMap(Pop(PushedUnmarked(cells)), m)
  {
    PopTail(cells);
    UnmarkedAscend(cells, |cells| - 1);
    UnmarkedPairs(cells, m, |cells| - 1);
    UnmarkedCovers(cells, m);
  }

  /** With no cell marked, the loop as written and the intended loop push
      the same pairs. */
  lemma {:induction false} AsWrittenUnmarked<V>(cells: seq<Cell<V>>)
    requires forall i :: 0 <= i < |cells| ==> !cells[i].mark
    ensures PushedAsWritten(cells) == PushedUnmarked(cells)
  {
    if |cells| > 1 {
      AsWrittenUnmarked(cells[..|cells| - 1]);
    }
  }

  /** A level 0 of head, a deleted node still linked (marked), an entry and
      the tail, as `delete` leaves it: it shows the map {2: b}, yet `to_a`
      as written lists the deleted pair and leaves out the entry, where the
      unmarked nodes list the map. */
  lemma ToAListsDeleted<V>(a: V, b: V)
    ensures var cells := [Cell(MIN, None, false), Cell(Num(1), Some(a), true),
                          Cell(Num(2), Some(b), false), Cell(MAX, None, false)];
            && ShowsMap(cells, map[2 := b])
            && Pop(PushedAsWritten(cells)) == [(Num(1), Some(a))]
            && !ListsMap(Pop(PushedAsWritten(cells)), map[2 := b])
            && Pop(PushedUnmarked(cells)) == [(Num(2), Some(b))]
            && ListsMap(Pop(PushedUnmarked(cells)), map[2 := b])
  {
    var cells := [Cell(MIN, None, false), Cell(Num(1), Some(a), true),
                  Cell(Num(2), Some(b), false), Cell(MAX, None, false)];
    var m := map[2 := b];
    assert cells[..3][..2][..1] == [cells[0]];
    assert PushedAsWritten(cells[..3][..2]) == [(Num(1), Some(a))];
    assert PushedAsWritten(cells[..3]) == [(Num(1), Some(a))];
    assert PushedAsWritten(cells) == [(Num(1), Some(a)), (MAX, None)];
    assert PushedUnmarked(cells[..3][..2]) == [];
    assert PushedUnmarked(cells[..3]) == [(Num(2), Some(b))];
    assert PushedUnmarked(cells) == [(Num(2), Some(b)), (MAX, None)];
    forall k | k in m
      ensures exists i :: 0 < i < |cells| - 1 && !cells[i].mark && cells[i].key == Num(k)
    {
      assert cells[2].key == Num(k);
    }
    assert 1 !in m;
  }

  /** A cell an operation changes: `node`'s cell at `level`, where `node`
      stands at position `pos` of that level. */
  datatype Site<V> = Site(node: Node<V>, level: nat, pos: int)

  class SkipList<V> {
    const levelMax: nat
    const head: Node<V>
    const tail: Node<V>
    var size: int

    ghost var nodes: set<Node<V>>
    ghost var owner: map<array<Link<V>>, Node<V>>
    ghost var chains: seq<seq<Node<V>>>
    ghost var index: map<int, Node<V>>

    /** Everything the list is made of: itself, its nodes and their cell
        arrays (the keys of `owner`). */
    ghost function Repr(): set<object>
      reads this
    {
      {this} + nodes + owner.Keys
    }

    /** Every node has one cell per level up to its top level, no two nodes
        share a cell array, ordinary nodes hold an integer key and a value,
        and a node is marked at all its levels or at none (except `pending`,
        the node an operation is in the middle of marking). */
    ghost predicate NodesOk(pending: Node?<V>)
      reads this, Repr()
    {
      && head in nodes && tail in nodes && head != tail
      && head.toplevel == levelMax && tail.toplevel == levelMax
      && head.key == MIN && (tail.key == MAX || tail.key.Num?)
      && (forall n :: n in nodes ==>
            n.links.Length == n.toplevel + 1 && n.toplevel <= levelMax
            && n.links in owner && owner[n.links] == n)
      && (forall n :: n in nodes && n != head && n != tail ==> n.key.Num? && n.val.Some?)
      && (forall n, k :: n in nodes && n != pending && 0 <= k < n.links.Length ==>
            n.links[k].mark == n.links[0].mark)
    }

    /** Level l is linked: `chains[l]` runs from head to tail, each node on
        it has a cell at level l that holds the next one, the tail's cell
        there is (nil, unmarked), and the head is never marked. */
    ghost predicate Linked(l: nat)
      reads this, owner.Keys
    {
      && l < |chains| && head in nodes && tail in nodes && head != tail
      && (var c := chains[l];
          && 2 <= |c| && c[0] == head && c[|c| - 1] == tail
          && (forall i :: 0 <= i < |c| ==> c[i] in nodes && c[i].links in owner && l < c[i].links.Length)
          && (forall i :: 0 < i < |c| - 1 ==> c[i] != head && c[i] != tail)
          && (forall a {:trigger c[a].links[l]} :: 0 <= a < |c| - 1 ==> c[a].links[l].ref == c[a + 1]))
      && !head.links[l].mark && tail.links[l] == Link(null, false)
    }

    /** Level l is ordered: the nodes between head and tail hold integer
        keys below the tail's key, and each key on the level is below the
        next one. */
    ghost predicate Ordered(l: nat)
      requires Linked(l)
      reads this, owner.Keys
    {
      var c := chains[l];
      && (forall i :: 0 < i < |c| - 1 ==> c[i].key.Num? && Below(c[i].key, tail.key))
      && (forall a {:trigger c[a].links[l]} :: 0 <= a < |c| - 1 ==> Below(c[a].key, c[a + 1].key))
    }

    /** Every node between head and tail of level l that is not marked (at
        level 0) is the index entry of its key. */
    ghost predicate Indexed(l: nat)
      requires Linked(l)
      reads this, owner.Keys
    {
      var c := chains[l];
      forall i {:trigger c[i].links[0]} :: 0 < i < |c| - 1 && !c[i].links[0].mark ==>
        c[i].key.Num? && c[i].key.n in index && index[c[i].key.n] == c[i]
    }

    ghost predicate LevelOk(l: nat)
      reads this, owner.Keys
    {
      Linked(l) && Ordered(l) && Indexed(l)
    }

    /** On an ordered level, keys ascend strictly from any node to any later one. */
    lemma {:induction false} Ascending(l: nat, a: int, b: int)
      requires Linked(l) && Ordered(l) && 0 <= a < b < |chains[l]|
      ensures Below(chains[l][a].key, chains[l][b].key)
      decreases b - a
    {
      var c := chains[l];
      assert c[a].links[l].ref == c[a + 1];
      if a + 1 < b {
        Ascending(l, a + 1, b);
      }
    }

    /** On an ordered level, a node occurs at one position only. */
    lemma Distinct(l: nat, q: int)
      requires Linked(l) && Ordered(l) && 0 <= q < |chains[l]|
      ensures forall m :: 0 <= m < |chains[l]| && m != q ==> chains[l][m] != chains[l][q]
    {
      forall m | 0 <= m < |chains[l]| && m != q
        ensures chains[l][m] != chains[l][q]
      {
        if m < q { Ascending(l, m, q); } else { Ascending(l, q, m); }
      }
    }

    /** Node `n` is on level `l`. */
    ghost predicate OnLevel(n: Node<V>, l: nat)
      reads this
    {
      l < |chains| && n in chains[l]
    }

    /** The index holds unmarked nodes under their own keys, and each of them
        (but `pending`, the node being linked) is on every level up to its top. */
    ghost predicate IndexOk(pending: Node?<V>)
      reads this, Repr()
    {
      && (forall k :: k in index ==>
            index[k] in nodes && index[k] != head && index[k] != tail
            && index[k].key == Num(k) && index[k].links in owner && 0 < index[k].links.Length && !index[k].links[0].mark)
      && (forall k, l :: k in index && index[k] != pending && 0 <= l < index[k].links.Length ==>
            OnLevel(index[k], l))
    }

    ghost predicate Inv(pending: Node?<V>)
      reads this, Repr()
    {
      && NodesOk(pending)
      && |chains| == levelMax + 1
      && (forall l :: 0 <= l <= levelMax ==> LevelOk(l))
      && IndexOk(pending)
      && size == |index|
    }

    ghost predicate Valid()
      reads this, Repr()
    {
      Inv(null)
    }

    /** The map the list stands for: each key of an unmarked level-0 node,
        with that node's value. */
    ghost function Contents(): map<int, V>
      reads this, index.Values
    {
      map k | k in index && index[k].val.Some? :: index[k].val.value
    }

    /** A key the operations may search for: below the tail's key. */
    predicate Fits(key: int) {
      Below(Num(key), tail.key)
    }

    /** Where a search at level l stands once it stops: it came from `p` at
        position i, whose key is below `key`, passed over nodes all marked at
        level l, and stopped at `pp` at position j, unmarked and with a key
        not below `key`. */
    ghost predicate Reached(l: nat, key: int, p: Node<V>, pp: Node<V>, i: int, j: int)
      reads this, Repr()
    {
      && Linked(l) && 0 <= i < j < |chains[l]|
      && chains[l][i] == p && chains[l][j] == pp
      && Below(p.key, Num(key)) && !Below(pp.key, Num(key)) && !pp.links[l].mark
      && (forall m {:trigger chains[l][m].links[l]} :: i < m < j ==> chains[l][m].links[l].mark)
    }

    /** A search that stops at level 0 has found the key exactly when the node
        it stopped at holds that key, and then that node is the key's entry. */
    lemma Located(key: int, p: Node<V>, pp: Node<V>, i: int, j: int)
      requires Valid() && Fits(key) && Reached(0, key, p, pp, i, j)
      ensures key in index <==> pp.key == Num(key)
      ensures key in index ==> pp == index[key]
    {
      var c := chains[0];
      assert LevelOk(0);
      if key in index {
        var n := index[key];
        assert OnLevel(n, 0);
        var q :| 0 <= q < |c| && c[q] == n;
        if q <= i {
          if q < i { Ascending(0, q, i); }
        } else if j < q {
          Ascending(0, j, q);
        }
      }
    }

    /** Where a level of `find` stops, on an unmarked `p` linked to an
        unmarked `pp` whose key is not below `key`: `p` is the head or an
        entry taking part in the level, `pp` is the tail or an entry, and
        when `key` is not in the map, `pp`'s key is above it. */
    lemma Stop(level: nat, key: int, p: Node<V>, pp: Node<V>, i: int)
      requires Valid() && level <= levelMax && Fits(key) && LevelOk(level)
      requires 0 <= i && i + 1 < |chains[level]| && chains[level][i] == p && chains[level][i + 1] == pp
      requires !p.links[level].mark && !pp.links[level].mark && !Below(pp.key, Num(key))
      ensures HeadOrEntry(p) && level <= p.toplevel && TailOrEntry(pp)
      ensures key !in index ==> Below(Num(key), pp.key)
    {
      assert p == head || !chains[level][i].links[0].mark;
      assert pp == tail || !chains[level][i + 1].links[0].mark;
    }

    /** The position on level l of the head or of an index entry taking part
        in level l; the node is not marked there. */
    lemma Position(l: nat, p: Node<V>) returns (i: int)
      requires Valid() && l <= levelMax
      requires HeadOrEntry(p) && l <= p.toplevel
      ensures 0 <= i < |chains[l]| - 1 && chains[l][i] == p && !p.links[l].mark
    {
      assert LevelOk(l);
      i := 0;
      if p != head {
        assert OnLevel(p, l);
        i :| 0 <= i < |chains[l]| && chains[l][i] == p;
      }
    }

    /** `SkipList.new level_max, cmp_op, max_element` for a non-negative
        level count: every head cell points unmarked to the tail, every tail
        cell is (nil, unmarked), and the map is empty. The tail key is
        `max_element` when one is given, MAX otherwise. */
    constructor (levelMax: nat, maxElement: Option<int>)
      ensures Valid() && fresh(nodes) && fresh(owner.Keys)
      ensures this.levelMax == levelMax && size == 0 && Contents() == map[]
      ensures tail.key == if maxElement.Some? then Num(maxElement.value) else MAX
      ensures forall l :: 0 <= l <= levelMax ==>
                head.links[l] == Link(tail, false) && tail.links[l] == Link(null, false)
    {
      this.levelMax := levelMax;
      var max := if maxElement.Some? then Num(maxElement.value) else MAX;
      var t := new Node<V>(levelMax, max, None);
      var i := 0;
      while i <= levelMax
        invariant 0 <= i <= levelMax + 1
        invariant forall l :: 0 <= l < t.links.Length ==> t.links[l] == Link(null, false)
      {
        t.links[i] := Link(null, false);
        i := i + 1;
      }
      var h := new Node<V>(levelMax, MIN, None);
      i := 0;
      while i <= levelMax
        invariant 0 <= i <= levelMax + 1
        invariant forall l :: 0 <= l < i ==> h.links[l] == Link(t, false)
        invariant forall l :: 0 <= l < h.links.Length ==> !h.links[l].mark
        invariant forall l :: 0 <= l < t.links.Length ==> t.links[l] == Link(null, false)
      {
        h.links[i] := Link(t, false);
        i := i + 1;
      }
      head, tail := h, t;
      size := 0;
      nodes := {h, t};
      owner := map[h.links := h, t.links := t];
      chains := seq(levelMax + 1, _ => [h, t]);
      index := map[];
      new;
      assert owner.Keys == {h.links, t.links};
      EmptyIsValid();
    }

    /** A head linked straight to the tail at every level is a valid empty list. */
    lemma EmptyIsValid()
      requires head != tail && head.links != tail.links
      requires head.toplevel == levelMax && tail.toplevel == levelMax
      requires head.links.Length == levelMax + 1 && tail.links.Length == levelMax + 1
      requires head.key == MIN && (tail.key == MAX || tail.key.Num?)
      requires forall l :: 0 <= l <= levelMax ==>
                 head.links[l] == Link(tail, false) && tail.links[l] == Link(null, false)
      requires nodes == {head, tail} && owner == map[head.links := head, tail.links := tail]
      requires chains == seq(levelMax + 1, _ => [head, tail]) && index == map[] && size == 0
      ensures Valid() && Contents() == map[]
    {
      assert NodesOk(null);
      forall l | 0 <= l <= levelMax
        ensures LevelOk(l)
      {
        assert chains[l] == [head, tail];
      }
      assert IndexOk(null);
    }

    /** The loop of one level of the descent in `lst[key]`: from `p`,
        unmarked at position i of level `level`, step over marked nodes and
        move right while the next key is below `key`. It stops where `Reached`
        says, at an unmarked node `p'` of the level. */
    method Advance(level: nat, key: int, p: Node<V>, ghost i: int)
      returns (p': Node<V>, pp: Node<V>, ghost i': int, ghost j: int)
      requires Linked(level) && Fits(key) && Below(p.key, Num(key))
      requires 0 <= i < |chains[level]| - 1 && chains[level][i] == p && !p.links[level].mark
      ensures Reached(level, key, p', pp, i', j) && !p'.links[level].mark && i' < |chains[level]| - 1
    {
      ghost var c := chains[level];
      p', i' := p, i;
      pp := p.links[level].ref;
      j := i + 1;
      while true
        invariant 0 <= i' < j < |c| && c[i'] == p' && c[j] == pp
        invariant Below(p'.key, Num(key)) && !p'.links[level].mark
        invariant forall m {:trigger c[m].links[level]} :: i' < m < j ==> c[m].links[level].mark
        decreases |c| - j
      {
        var ppp, mark := pp.links[level].ref, pp.links[level].mark;
        while mark
          invariant i' < j < |c| && c[j] == pp
          invariant pp.links[level] == Link(ppp, mark)
          invariant forall m {:trigger c[m].links[level]} :: i' < m < j ==> c[m].links[level].mark
          decreases |c| - j
        {
          pp := pp.links[level].ref;
          j := j + 1;
          ppp, mark := pp.links[level].ref, pp.links[level].mark;
        }
        if Less(pp.key, Num(key)) {
          p' := pp;
          i' := j;
          pp := ppp;
          j := j + 1;
        } else {
          break;
        }
      }
    }

    /** One level of the descent in `lst[key]`, starting from the head or an
        entry that takes part in the level; it ends at the head or at such an
        entry again, and the list does not change. */
    method WalkLevel(level: nat, key: int, p: Node<V>) returns (p': Node<V>, pp: Node<V>, ghost i: int, ghost j: int)
      requires Valid() && level <= levelMax && Fits(key) && Below(p.key, Num(key))
      requires p == head || (p.key.Num? && p.key.n in index && index[p.key.n] == p && level <= p.toplevel)
      ensures Valid()
      ensures Reached(level, key, p', pp, i, j)
      ensures p' == head || (p'.key.Num? && p'.key.n in index && index[p'.key.n] == p' && level <= p'.toplevel)
    {
      assert LevelOk(level);
      if p == head {
        i := 0;
      } else {
        assert OnLevel(p, level);
        i :| 0 <= i < |chains[level]| && chains[level][i] == p;
      }
      p', pp, i, j := Advance(level, key, p, i);
      assert unchanged(Repr());
      assert p' == head || !chains[level][i].links[0].mark;
    }

    /** `lst[key]`: descend from the top level to level 0 with `WalkLevel`;
        the answer is the value of the level-0 node that holds `key`, or nil.
        The list does not change. */
    method Get(key: int) returns (r: Option<V>)
      requires Valid() && Fits(key)
      ensures Valid()
      ensures r == if key in Contents() then Some(Contents()[key]) else None
    {
      var pp: Node?<V> := null;
      var p: Node<V> := head;
      var level := levelMax + 1;
      ghost var i, j := 0, 1;
      while level > 0
        invariant Valid()
        invariant 0 <= level <= levelMax + 1
        invariant Below(p.key, Num(key))
        invariant p == head || (p.key.Num? && p.key.n in index && index[p.key.n] == p
                                && level <= p.toplevel + 1)
        invariant level == 0 ==> pp != null && Reached(0, key, p, pp, i, j)
      {
        level := level - 1;
        p, pp, i, j := WalkLevel(level, key, p);
      }
      Located(key, p, pp, i, j);
      if Same(pp.key, Num(key)) {
        r := pp.val;
      } else {
        r := None;
      }
    }

    /** Between the previous state and this one, every cell of every node
        that existed before holds what it held, except the cell at `site`. */
    twostate predicate Kept(site: Site<V>)
      reads this, Repr()
    {
      forall q, l {:trigger q.links[l]} ::
        q in old(nodes) && q.links in owner && 0 <= l < q.links.Length && (q != site.node || l != site.level) ==>
          q.links[l] == old(q.links[l])
    }

    /** Between the previous state and this one, no node's value changed. */
    twostate predicate ValsKept()
      reads this, Repr()
    {
      forall n :: n in old(nodes) && n in nodes ==> n.val == old(n.val)
    }

    /** A change of one cell that leaves its mark alone keeps the node
        invariant. */
    twostate lemma NodesKept(site: Site<V>)
      requires old(NodesOk(null)) && nodes == old(nodes) && owner == old(owner)
      requires Kept(site) && ValsKept()
      requires site.node in nodes && site.level < site.node.links.Length
      requires site.node.links[site.level].mark == old(site.node.links[site.level].mark)
      ensures NodesOk(null)
    {
    }

    /** The levels other than the one of `site`, whose node sequences did
        not change, stay well formed when the cell at `site` changes, provided
        its mark is not cleared and every index entry still unmarked keeps its
        place in the index. */
    twostate lemma LevelsKept(site: Site<V>)
      requires |old(chains)| == |chains| == levelMax + 1
      requires forall l :: 0 <= l <= levelMax ==> old(LevelOk(l))
      requires old(nodes) <= nodes && old(owner.Keys) <= owner.Keys
      requires Kept(site) && site.node in old(nodes) && site.level < site.node.links.Length
      requires forall l :: 0 <= l <= levelMax && l != site.level ==> chains[l] == old(chains[l])
      requires old(site.node.links[site.level].mark) ==> site.node.links[site.level].mark
      requires forall k :: k in old(index) && 0 < old(index)[k].links.Length && !old(index)[k].links[0].mark ==>
                 k in index && index[k] == old(index)[k]
      ensures forall l :: 0 <= l <= levelMax && l != site.level ==> LevelOk(l)
    {
      forall l | 0 <= l <= levelMax && l != site.level
        ensures LevelOk(l)
      {
        assert old(LevelOk(l));
        ghost var c := chains[l];
        forall a | 0 <= a < |c| - 1
          ensures Below(c[a].key, c[a + 1].key)
        {
          assert old(c[a].links[l].ref) == c[a + 1];
        }
      }
    }

    /** The snip step at `site`: the node there, unmarked at the level and
        met only once on it, now links past its successor, which leaves the
        level. */
    twostate predicate Snipped(site: Site<V>)
      reads this, Repr()
    {
      && site.level < |chains| == |old(chains)|
      && 0 <= site.pos && site.pos + 2 < |old(chains[site.level])|
      && site.node == old(chains[site.level][site.pos])
      && (forall m :: 0 <= m < |old(chains[site.level])| && m != site.pos ==> old(chains[site.level][m]) != site.node)
      && chains[site.level] == RemoveAt(old(chains[site.level]), site.pos + 1)
      && site.node.links in owner && site.level < site.node.links.Length
      && site.node.links[site.level] == Link(old(chains[site.level][site.pos + 2]), false)
      && !old(site.node.links[site.level].mark)
    }

    /** After a snip at `site`, the level is still linked. */
    twostate lemma SnipLinked(site: Site<V>)
      requires old(LevelOk(site.level)) && nodes == old(nodes) && owner == old(owner)
      requires Kept(site) && Snipped(site)
      ensures Linked(site.level)
    {
      var level, i := site.level, site.pos;
      ghost var c, c' := old(chains[level]), chains[level];
      forall a | 0 <= a < |c'| - 1
        ensures c'[a].links[level].ref == c'[a + 1]
      {
        if a < i {
          assert c'[a].links[level] == old(c[a].links[level]);
        } else if i < a {
          assert c'[a].links[level] == old(c[a + 1].links[level]);
        }
      }
    }

    /** After a snip at `site`, the level is still ordered. */
    twostate lemma SnipOrdered(site: Site<V>)
      requires old(LevelOk(site.level)) && Snipped(site) && Linked(site.level)
      ensures Ordered(site.level)
    {
      var level, i := site.level, site.pos;
      ghost var c, c' := old(chains[level]), chains[level];
      assert old(c[i].links[level].ref) == c[i + 1] && old(c[i + 1].links[level].ref) == c[i + 2];
      forall a | 0 <= a < |c'| - 1
        ensures Below(c'[a].key, c'[a + 1].key)
      {
        if a < i {
          assert old(c[a].links[level].ref) == c[a + 1];
        } else if i < a {
          assert old(c[a + 1].links[level].ref) == c[a + 2];
        }
      }
    }

    /** After a snip at `site`, with the map unchanged, the level is still
        indexed. */
    twostate lemma SnipIndexed(site: Site<V>)
      requires old(LevelOk(site.level)) && index == old(index)
      requires Kept(site) && Snipped(site) && Linked(site.level)
      ensures Indexed(site.level)
    {
      var level, i := site.level, site.pos;
      ghost var c, c' := old(chains[level]), chains[level];
      forall m | 0 < m < |c'| - 1 && !c'[m].links[0].mark
        ensures c'[m].key.Num? && c'[m].key.n in index && index[c'[m].key.n] == c'[m]
      {
        var x := if m <= i then m else m + 1;
        assert c'[m] == c[x] && !old(c[x].links[0].mark);
      }
    }

    /** After the node at `site` snips its successor, which is marked at
        level 0, every index entry is still on each of its levels. */
    twostate lemma IndexAfterSnip(site: Site<V>)
      requires old(IndexOk(null)) && nodes == old(nodes) && owner == old(owner) && index == old(index)
      requires Kept(site) && site.level < |chains| == |old(chains)|
      requires 0 <= site.pos && site.pos + 2 < |old(chains[site.level])|
      requires site.node == old(chains[site.level][site.pos])
      requires old(chains[site.level][site.pos + 1]) != site.node
      requires 0 < old(chains[site.level][site.pos + 1]).links.Length
      requires old(chains[site.level][site.pos + 1]).links[0].mark
      requires forall l :: 0 <= l < |chains| && l != site.level ==> chains[l] == old(chains[l])
      requires chains[site.level] == RemoveAt(old(chains[site.level]), site.pos + 1)
      requires 0 < site.node.links.Length && !site.node.links[0].mark
      ensures IndexOk(null)
    {
      var level, i := site.level, site.pos;
      ghost var c := old(chains[level]);
      forall k, l | k in index && 0 <= l < index[k].links.Length
        ensures OnLevel(index[k], l)
      {
        if l == level {
          assert old(OnLevel(index[k], level));
          var m :| 0 <= m < |c| && c[m] == index[k];
          if m <= i {
            assert chains[level][m] == index[k];
          } else {
            assert chains[level][m - 1] == index[k];
          }
        } else {
          assert old(OnLevel(index[k], l));
        }
      }
    }

    /** The whole effect of a snip at `site`, of a successor marked at level
        0, with the map unchanged: the list is still valid. */
    twostate lemma SnipKeeps(site: Site<V>)
      requires old(Valid()) && Kept(site) && Snipped(site) && ValsKept()
      requires nodes == old(nodes) && owner == old(owner) && index == old(index) && size == old(size)
      requires forall l :: 0 <= l < |chains| && l != site.level ==> chains[l] == old(chains[l])
      requires site.node.links[site.level].mark == old(site.node.links[site.level].mark)
      requires old(chains[site.level][site.pos + 1]) != site.node
      requires 0 < old(chains[site.level][site.pos + 1]).links.Length
      requires old(chains[site.level][site.pos + 1]).links[0].mark
      requires 0 < site.node.links.Length && !site.node.links[0].mark
      ensures Valid()
    {
      assert old(LevelOk(site.level));
      NodesKept(site);
      LevelsKept(site);
      SnipLinked(site);
      SnipOrdered(site);
      SnipIndexed(site);
      IndexAfterSnip(site);
    }

    /** The compare-and-set of a snip, `p[level].compare_and_set pp, ppp,
        false, false` on a cell holding `pp` unmarked, with the bookkeeping
        of the ghost state: `p` now links to `pp`'s successor, which leaves
        level `level`. No other cell changes. */
    method Unlink(level: nat, p: Node<V>, pp: Node<V>, ghost i: int) returns (ok: bool)
      requires p in nodes && forall n :: n in nodes ==> n.links in owner && owner[n.links] == n
      requires level < p.links.Length && p.links[level] == Link(pp, false) && level < pp.links.Length
      requires level < |chains| && 0 <= i && i + 1 < |chains[level]|
      modifies this, p.links
      ensures ok && Kept(Site(p, level, i)) && ValsKept()
      ensures nodes == old(nodes) && owner == old(owner) && index == old(index) && size == old(size)
      ensures chains == old(chains)[level := RemoveAt(old(chains[level]), i + 1)]
      ensures p.links[level] == Link(old(pp.links[level].ref), false)
    {
      var ppp := pp.links[level].ref;
      ok := p.CompareAndSet(level, pp, ppp, false, false);
      chains := chains[level := RemoveAt(chains[level], i + 1)];
    }

    /** The snip in `find`: `p[level].compare_and_set pp, ppp, false, false`
        with `p` unmarked and linked to `pp`, which is marked at this level.
        The compare-and-set succeeds, `p` now links past `pp`, and `pp` leaves
        level `level`; nothing else changes, and the list stays valid. */
    method Snip(level: nat, p: Node<V>, pp: Node<V>, ghost i: int) returns (ok: bool)
      requires Valid() && level <= levelMax && Linked(level)
      requires 0 <= i && i + 2 < |chains[level]| && chains[level][i] == p && chains[level][i + 1] == pp
      requires !p.links[level].mark && pp.links[level].mark
      modifies this, p.links
      ensures ok && Valid()
      ensures chains == old(chains)[level := RemoveAt(old(chains[level]), i + 1)]
      ensures nodes == old(nodes) && owner == old(owner) && index == old(index) && size == old(size)
      ensures p.links[level] == Link(old(pp.links[level].ref), false)
    {
      assert LevelOk(level);
      Distinct(level, i);
      assert pp.links[0].mark && !p.links[0].mark;
      assert chains[level][i].links[level].ref == chains[level][i + 1];
      ok := Unlink(level, p, pp, i);
      ghost var site := Site(p, level, i);
      assert Snipped(site);
      SnipKeeps(site);
    }

    /** The head, or the index entry of its own key. */
    ghost predicate HeadOrEntry(n: Node<V>)
      reads this
    {
      n == head || (n.key.Num? && n.key.n in index && index[n.key.n] == n)
    }

    /** The tail, or the index entry of its own key. */
    ghost predicate TailOrEntry(n: Node<V>)
      reads this
    {
      n == tail || (n.key.Num? && n.key.n in index && index[n.key.n] == n)
    }

    /** Between the previous state and this one, the nodes, their cell
        arrays, the map and the size are the same, and only level `level`
        may have changed its node sequence. */
    twostate predicate OnlyLevel(level: nat)
      reads this
    {
      && nodes == old(nodes) && owner == old(owner) && index == old(index) && size == old(size)
      && |chains| == |old(chains)|
      && (forall l :: 0 <= l < |chains| && l != level ==> chains[l] == old(chains[l]))
    }

    /** A valid list in which `p`, unmarked at level `level`, stands at
        position i of that level and `pp` right after it. */
    ghost predicate At(level: nat, p: Node<V>, pp: Node<V>, i: int)
      reads this, Repr()
    {
      && Valid() && level <= levelMax && LevelOk(level)
      && 0 <= i && i + 1 < |chains[level]| && chains[level][i] == p && chains[level][i + 1] == pp
      && !p.links[level].mark
    }

    /** One pass of the inner loop of `find`: snip the marked successor `pp`
        of `p` and read the new successor and its cell. */
    method SnipNext(level: nat, p: Node<V>, pp: Node<V>, ghost i: int) returns (pp': Node<V>, ppp: Node?<V>, mark: bool)
      requires At(level, p, pp, i) && pp.links[level].mark
      modifies this, owner.Keys
      ensures At(level, p, pp', i) && OnlyLevel(level)
      ensures |chains[level]| < |old(chains[level])|
      ensures pp'.links[level] == Link(ppp, mark)
    {
      assert LevelOk(level) && pp != tail;
      var snip := Snip(level, p, pp, i);
      assert LevelOk(level);
      assert p.links[level].ref == chains[level][i + 1];
      pp' := p.links[level].ref;
      ppp, mark := pp'.links[level].ref, pp'.links[level].mark;
    }

    /** The inner loop of one level of `find`: while the successor `pp` of
        `p` (unmarked, at position i) is marked, snip it and read the new
        successor. It ends with `p` linked to an unmarked `pp'`, whose own
        successor is `ppp`. Only level `level` loses nodes. */
    method SnipRun(level: nat, p: Node<V>, pp: Node<V>, ghost i: int) returns (pp': Node<V>, ppp: Node?<V>)
      requires At(level, p, pp, i)
      modifies this, owner.Keys
      ensures At(level, p, pp', i) && OnlyLevel(level)
      ensures |chains[level]| <= |old(chains[level])|
      ensures pp'.links[level] == Link(ppp, false)
      ensures pp' != tail ==> i + 2 < |chains[level]| && chains[level][i + 2] == ppp
    {
      pp' := pp;
      var mark;
      assert LevelOk(level);
      ppp, mark := pp.links[level].ref, pp.links[level].mark;
      while mark
        invariant At(level, p, pp', i) && OnlyLevel(level)
        invariant |chains[level]| <= |old(chains[level])|
        invariant pp'.links[level] == Link(ppp, mark)
        decreases |chains[level]|
      {
        pp', ppp, mark := SnipNext(level, p, pp', i);
      }
      assert LevelOk(level);
      assert pp' == tail || pp'.links[level].ref == chains[level][i + 2];
    }

    /** One level of `find`: from `p`, the head or an entry taking part in
        level `level`, snip every marked successor and move right while the
        next key is below `key`. It stops with `p'` linked to `pp`, the first
        node of the level whose key is not below `key`. Only level `level`
        loses nodes; the map is unchanged. */
    method FindLevel(level: nat, key: int, p: Node<V>) returns (p': Node<V>, pp: Node<V>, ghost i: int)
      requires Valid() && level <= levelMax && Fits(key) && Below(p.key, Num(key))
      requires HeadOrEntry(p) && level <= p.toplevel
      modifies this, owner.Keys
      ensures Valid()
      ensures OnlyLevel(level)
      ensures 0 <= i && i + 1 < |chains[level]| && chains[level][i] == p' && chains[level][i + 1] == pp
      ensures Below(p'.key, Num(key)) && !Below(pp.key, Num(key))
      ensures HeadOrEntry(p') && level <= p'.toplevel && TailOrEntry(pp)
      ensures key !in index ==> Below(Num(key), pp.key)
    {
      i := Position(level, p);
      assert LevelOk(level) && p.links[level].ref == chains[level][i + 1];
      p', pp, i := WalkRight(level, key, p, p.links[level].ref, i);
      assert LevelOk(level);
      Stop(level, key, p', pp, i);
    }

    /** One pass of the loop of one level of `find`: snip the marked
        successors of `p` with `SnipRun`; then step right when the
        successor's key is below `key`, and otherwise stop (`done`). */
    method StepRight(level: nat, key: int, p: Node<V>, pp: Node<V>, ghost i: int)
      returns (p': Node<V>, pp': Node<V>, ghost i': int, done: bool)
      requires At(level, p, pp, i) && Fits(key) && Below(p.key, Num(key))
      modifies this, owner.Keys
      ensures At(level, p', pp', i') && OnlyLevel(level) && Below(p'.key, Num(key))
      ensures |chains[level]| <= |old(chains[level])|
      ensures if done then i' == i && !Below(pp'.key, Num(key)) && !pp'.links[level].mark else i' == i + 1
    {
      var ppp;
      pp', ppp := SnipRun(level, p, pp, i);
      if Less(pp'.key, Num(key)) {
        assert pp' != tail;
        p', pp', i', done := pp', ppp, i + 1, false;
      } else {
        p', i', done := p, i, true;
      }
    }

    /** The loop of one level of `find`, from `p` at position i, by
        `StepRight` until it stops. */
    method WalkRight(level: nat, key: int, p: Node<V>, pp: Node<V>, ghost i: int)
      returns (p': Node<V>, pp': Node<V>, ghost i': int)
      requires At(level, p, pp, i) && Fits(key) && Below(p.key, Num(key))
      modifies this, owner.Keys
      ensures At(level, p', pp', i') && OnlyLevel(level)
      ensures Below(p'.key, Num(key)) && !Below(pp'.key, Num(key)) && !pp'.links[level].mark
    {
      p', pp', i' := p, pp, i;
      var done := false;
      while !done
        invariant At(level, p', pp', i') && OnlyLevel(level) && Below(p'.key, Num(key))
        invariant done ==> !Below(pp'.key, Num(key)) && !pp'.links[level].mark
        decreases |chains[level]| - i' + (if done then 0 else 1)
      {
        p', pp', i', done := StepRight(level, key, p', pp', i');
      }
    }

    /** What `find` leaves at level l: `before` at position `pos` and `after`
        next to it, linked unmarked, with `key` strictly above the first key
        and not above the second. */
    static ghost predicate Window(c: seq<Node<V>>, key: int, before: Node<V>, after: Node<V>, pos: int)
    {
      && 0 <= pos && pos + 1 < |c| && c[pos] == before && c[pos + 1] == after
      && Below(before.key, Num(key)) && !Below(after.key, Num(key))
    }

    /** The windows `find` records at the levels from `from` up, each at the
        head or an entry and ending at the tail or an entry, above `key` when
        `key` is not in the map. */
    ghost predicate Windows(key: int, from: nat, before: seq<Node<V>>, after: seq<Node<V>>, pos: seq<int>)
      reads this
    {
      && |before| == |after| == |pos| == |chains| == levelMax + 1
      && forall l :: from <= l <= levelMax ==>
           && HeadOrEntry(before[l]) && TailOrEntry(after[l])
           && Window(chains[l], key, before[l], after[l], pos[l])
           && (key !in index ==> Below(Num(key), after[l].key))
    }

    /** The descent of `find`: `FindLevel` at each level from the top down,
        recording the window it stops at in `before_list` and `after_list`
        (returned here as sequences indexed by level). */
    method Descend(key: int) returns (pp: Node<V>, before: seq<Node<V>>, after: seq<Node<V>>, ghost pos: seq<int>)
      requires Valid() && Fits(key)
      modifies this, owner.Keys
      ensures Valid() && nodes == old(nodes) && owner == old(owner) && index == old(index) && size == old(size)
      ensures Windows(key, 0, before, after, pos) && pp == after[0]
    {
      var p := head;
      pp := head;
      before := seq(levelMax + 1, _ => head);
      after := seq(levelMax + 1, _ => head);
      pos := seq(levelMax + 1, _ => 0);
      var level := levelMax + 1;
      while level > 0
        invariant Valid() && nodes == old(nodes) && owner == old(owner) && index == old(index) && size == old(size)
        invariant 0 <= level <= levelMax + 1 && Windows(key, level, before, after, pos)
        invariant Below(p.key, Num(key)) && HeadOrEntry(p) && level <= p.toplevel + 1
        invariant level <= levelMax ==> pp == after[level]
      {
        level := level - 1;
        ghost var i, c := 0, chains;
        p, pp, i := FindLevel(level, key, p);
        forall l | level < l <= levelMax
          ensures chains[l] == c[l]
        {
        }
        before, after, pos := before[level := p], after[level := pp], pos[level := i];
      }
    }

    /** At a level where `find` stopped, `before` links unmarked to `after`,
        which is itself unmarked there. */
    lemma Linkage(l: nat, key: int, before: Node<V>, after: Node<V>, pos: int)
      requires NodesOk(null) && |chains| == levelMax + 1 && l <= levelMax && LevelOk(l)
      requires forall k :: k in index ==> index[k].links in owner && 0 < index[k].links.Length && !index[k].links[0].mark
      requires HeadOrEntry(before) && TailOrEntry(after) && Window(chains[l], key, before, after, pos)
      ensures LevelOk(l) && before.links[l] == Link(after, false) && !after.links[l].mark
    {
      assert LevelOk(l) && chains[l][pos].links[l].ref == chains[l][pos + 1];
    }

    /** `find key, before_list, after_list`: descend from the top level to
        level 0, snipping the marked nodes met, and record at each level the
        last node with a key below `key` and its successor. The answer is the
        level-0 successor when it holds `key`, nil otherwise. The map is
        unchanged. */
    method Find(key: int) returns (found: Node?<V>, before: seq<Node<V>>, after: seq<Node<V>>, ghost pos: seq<int>)
      requires Valid() && Fits(key)
      modifies this, owner.Keys
      ensures Valid() && nodes == old(nodes) && owner == old(owner) && index == old(index) && size == old(size)
      ensures Windows(key, 0, before, after, pos) && |before| == |after| == |pos| == levelMax + 1
      ensures forall l :: 0 <= l <= levelMax ==>
                LevelOk(l) && Window(chains[l], key, before[l], after[l], pos[l])
                && before[l].links[l] == Link(after[l], false) && !after[l].links[l].mark
      ensures found != null <==> key in index
      ensures found != null ==> found == index[key] && found == after[0]
      ensures Contents() == old(Contents())
    {
      var pp;
      pp, before, after, pos := Descend(key);
      ContentsKept();
      forall l | 0 <= l <= levelMax
        ensures LevelOk(l) && before[l].links[l] == Link(after[l], false) && !after[l].links[l].mark
      {
        assert LevelOk(l);
        Linkage(l, key, before[l], after[l], pos[l]);
      }
      Located(key, before[0], after[0], pos[0], pos[0] + 1);
      if Same(pp.key, Num(key)) {
        found := pp;
      } else {
        found := null;
      }
    }

    /** The link step of an insertion at `site`: the node `x` now at
        position `pos + 1` of the level, with a key strictly between its
        neighbours' and its own index entry, is linked unmarked to the old
        successor, and the node at `site` now links to `x`. */
    twostate predicate Inserted(site: Site<V>)
      reads this, Repr()
    {
      && old(nodes) <= nodes && old(owner.Keys) <= owner.Keys && site.level < |chains| == |old(chains)|
      && 0 <= site.pos && site.pos + 1 < |old(chains[site.level])|
      && site.node == old(chains[site.level][site.pos])
      && |chains[site.level]| == |old(chains[site.level])| + 1
      && chains[site.level] == InsertAt(old(chains[site.level]), site.pos + 1, chains[site.level][site.pos + 1])
      && site.node.links in owner && site.level < site.node.links.Length
      && site.node.links[site.level] == Link(chains[site.level][site.pos + 1], false)
      && (var x := chains[site.level][site.pos + 1];
          && x in nodes && x.links in owner && site.level < x.links.Length && x != head && x != tail
          && x.links[site.level] == Link(old(chains[site.level][site.pos + 1]), false)
          && x.key.Num? && Below(site.node.key, x.key) && Below(x.key, old(chains[site.level][site.pos + 1]).key)
          && x.key.n in index && index[x.key.n] == x)
    }

    /** After an insertion at `site`, the level is still linked. */
    twostate lemma InsertLinked(site: Site<V>)
      requires old(LevelOk(site.level)) && Kept(site) && Inserted(site)
      requires forall m :: 0 <= m < |old(chains[site.level])| && m != site.pos ==> old(chains[site.level][m]) != site.node
      ensures Linked(site.level)
    {
      var level, i := site.level, site.pos;
      ghost var c, c' := old(chains[level]), chains[level];
      forall a | 0 <= a < |c'| - 1
        ensures c'[a].links[level].ref == c'[a + 1]
      {
        if a < i {
          assert c'[a].links[level] == old(c[a].links[level]);
        } else if i + 1 < a {
          assert c'[a].links[level] == old(c[a - 1].links[level]);
        }
      }
    }

    /** After an insertion at `site`, the level is still ordered. */
    twostate lemma InsertOrdered(site: Site<V>)
      requires old(LevelOk(site.level)) && Inserted(site) && Linked(site.level)
      ensures Ordered(site.level)
    {
      var level, i := site.level, site.pos;
      ghost var c, c' := old(chains[level]), chains[level];
      assert old(c[i].links[level].ref) == c[i + 1];
      assert Below(c[i + 1].key, tail.key) || c[i + 1] == tail;
      forall a | 0 <= a < |c'| - 1
        ensures Below(c'[a].key, c'[a + 1].key)
      {
        if a < i {
          assert old(c[a].links[level].ref) == c[a + 1];
        } else if i + 1 < a {
          assert old(c[a - 1].links[level].ref) == c[a];
        }
      }
    }

    /** After an insertion at `site` that leaves every unmarked entry in the
        index, the level is still indexed. */
    twostate lemma InsertIndexed(site: Site<V>)
      requires old(LevelOk(site.level)) && Kept(site) && Inserted(site) && Linked(site.level)
      requires !old(site.node.links[site.level].mark)
      requires forall k :: k in old(index) && 0 < old(index)[k].links.Length && !old(index)[k].links[0].mark ==>
                 k in index && index[k] == old(index)[k]
      ensures Indexed(site.level)
    {
      var level, i := site.level, site.pos;
      ghost var c, c' := old(chains[level]), chains[level];
      forall m | 0 < m < |c'| - 1 && !c'[m].links[0].mark
        ensures c'[m].key.Num? && c'[m].key.n in index && index[c'[m].key.n] == c'[m]
      {
        if m != i + 1 {
          var y := if m <= i then m else m - 1;
          assert c'[m] == c[y] && !old(c[y].links[0].mark);
        }
      }
    }

    /** Adding a new node `x`, unmarked at every level and with a cell array
        of its own, keeps the node invariant when the only old cell that
        changed (the one at `site`) kept its mark. */
    twostate lemma NodesAfterAdd(site: Site<V>)
      requires old(NodesOk(null)) && Kept(site) && ValsKept()
      requires site.node in old(nodes) && site.level < site.node.links.Length
      requires site.node.links[site.level].mark == old(site.node.links[site.level].mark)
      requires site.level < |chains| && 0 <= site.pos + 1 < |chains[site.level]|
      requires var x := chains[site.level][site.pos + 1];
               && x !in old(nodes) && x.links !in old(owner)
               && nodes == old(nodes) + {x} && owner == old(owner)[x.links := x]
               && x.links.Length == x.toplevel + 1 && x.toplevel <= levelMax && x.key.Num? && x.val.Some?
               && (forall l :: 0 <= l < x.links.Length ==> !x.links[l].mark)
      ensures NodesOk(null)
    {
    }

    /** Linking a new node `x` into level 0 at `site` and entering it in the
        index keeps every other entry in place; `x` is the pending entry, not
        yet on its upper levels. */
    twostate lemma IndexAfterAdd(site: Site<V>)
      requires old(IndexOk(null)) && Inserted(site) && Kept(site)
      requires site.node in old(nodes) && site.level < site.node.links.Length
      requires site.node.links[site.level].mark == old(site.node.links[site.level].mark)
      requires forall a :: a in old(owner) ==> a in owner
      requires forall l :: 0 <= l < |chains| && l != site.level ==> chains[l] == old(chains[l])
      requires var x := chains[site.level][site.pos + 1];
               && x !in old(nodes) && x.key.n !in old(index) && index == old(index)[x.key.n := x]
               && 0 < x.links.Length && !x.links[0].mark
      ensures IndexOk(chains[site.level][site.pos + 1])
    {
      var level, i := site.level, site.pos;
      ghost var x := chains[level][i + 1];
      forall k | k in index && k != x.key.n
        ensures index[k] in nodes && index[k].links in owner && !index[k].links[0].mark
      {
        assert old(index[k].links in owner && 0 < index[k].links.Length);
      }
      forall k, l | k in index && index[k] != x && 0 <= l < index[k].links.Length
        ensures OnLevel(index[k], l)
      {
        assert old(OnLevel(index[k], l));
        if l == level {
          var m :| 0 <= m < |old(chains[level])| && old(chains[level][m]) == index[k];
          if m <= i {
            assert chains[level][m] == index[k];
          } else {
            assert chains[level][m + 1] == index[k];
          }
        }
      }
    }

    /** Linking the pending entry `x` into an upper level at `site` keeps
        every entry on the levels it was on. */
    twostate lemma IndexAfterLink(site: Site<V>)
      requires Inserted(site) && Kept(site) && nodes == old(nodes) && owner == old(owner) && index == old(index)
      requires var x := chains[site.level][site.pos + 1]; x in old(nodes) && old(IndexOk(x))
      requires site.node in old(nodes) && site.level < site.node.links.Length
      requires site.node.links[site.level].mark == old(site.node.links[site.level].mark)
      requires forall l :: 0 <= l < |chains| && l != site.level ==> chains[l] == old(chains[l])
      ensures IndexOk(chains[site.level][site.pos + 1])
    {
      var level, i := site.level, site.pos;
      ghost var x := chains[level][i + 1];
      forall k | k in index
        ensures !index[k].links[0].mark
      {
        assert old(index[k].links in owner && 0 < index[k].links.Length);
      }
      forall k, l | k in index && index[k] != x && 0 <= l < index[k].links.Length
        ensures OnLevel(index[k], l)
      {
        assert old(OnLevel(index[k], l));
        if l == level {
          var m :| 0 <= m < |old(chains[level])| && old(chains[level][m]) == index[k];
          if m <= i {
            assert chains[level][m] == index[k];
          } else {
            assert chains[level][m + 1] == index[k];
          }
        }
      }
    }

    /** An insertion at `site` that keeps every unmarked entry in the index
        leaves every level well formed. */
    twostate lemma LevelsAfterInsert(site: Site<V>)
      requires |old(chains)| == |chains| == levelMax + 1
      requires forall l :: 0 <= l <= levelMax ==> old(LevelOk(l))
      requires old(nodes) <= nodes && old(owner.Keys) <= owner.Keys
      requires Kept(site) && Inserted(site) && site.node in old(nodes)
      requires forall m :: 0 <= m < |old(chains[site.level])| && m != site.pos ==> old(chains[site.level][m]) != site.node
      requires forall l :: 0 <= l <= levelMax && l != site.level ==> chains[l] == old(chains[l])
      requires !old(site.node.links[site.level].mark)
      requires forall k :: k in old(index) && 0 < old(index)[k].links.Length && !old(index)[k].links[0].mark ==>
                 k in index && index[k] == old(index)[k]
      ensures forall l :: 0 <= l <= levelMax ==> LevelOk(l)
    {
      assert old(LevelOk(site.level));
      LevelsKept(site);
      InsertLinked(site);
      InsertOrdered(site);
      InsertIndexed(site);
    }

    /** The whole effect of the level-0 link at `site`: a valid list, one
        more node `x` on level 0 and in the index under its key, one more in
        the size, and no other cell changed. The result is valid except that
        `x` is not yet on its upper levels. */
    twostate lemma Added(site: Site<V>)
      requires old(Valid()) && Kept(site) && Inserted(site) && ValsKept()
      requires site.level == 0 && site.node.links[0].mark == old(site.node.links[0].mark)
      requires forall m :: 0 <= m < |old(chains[0])| && m != site.pos ==> old(chains[0][m]) != site.node
      requires forall l :: 0 <= l < |chains| && l != 0 ==> chains[l] == old(chains[l])
      requires var x := chains[0][site.pos + 1];
               && x !in old(nodes) && x.links !in old(owner)
               && nodes == old(nodes) + {x} && owner == old(owner)[x.links := x]
               && x.links.Length == x.toplevel + 1 && x.toplevel <= levelMax && x.key.Num? && x.val.Some?
               && (forall l :: 0 <= l < x.links.Length ==> !x.links[l].mark)
               && x.key.n !in old(index) && index == old(index)[x.key.n := x] && size == old(size) + 1
      ensures Inv(chains[0][site.pos + 1]) && NodesOk(null)
    {
      assert old(LevelOk(0));
      NodesAfterAdd(site);
      LevelsAfterInsert(site);
      IndexAfterAdd(site);
    }

    /** The compare-and-set of the level-0 link in `lst[key] = val`, with the
        size increment that follows it and the bookkeeping of the ghost
        state: `b`, holding `a` unmarked, now holds the new node `x`, which
        joins the nodes, level 0 and the index. No other cell changes. */
    method SpliceBottom(x: Node<V>, b: Node<V>, a: Node<V>, ghost pos: int) returns (ok: bool)
      requires x !in nodes && x.links !in owner && b in nodes
      requires forall n :: n in nodes ==> n.links in owner && owner[n.links] == n
      requires x.key.Num? && 0 < b.links.Length && b.links[0] == Link(a, false)
      requires 0 < |chains| && 0 <= pos < |chains[0]|
      modifies this, b.links
      ensures ok && Kept(Site(b, 0, pos)) && ValsKept()
      ensures nodes == old(nodes) + {x} && owner == old(owner)[x.links := x]
      ensures index == old(index)[x.key.n := x] && size == old(size) + 1
      ensures chains == old(chains)[0 := InsertAt(old(chains[0]), pos + 1, x)]
      ensures forall l :: 0 <= l < |chains| && l != 0 ==> chains[l] == old(chains[l])
      ensures b.links[0] == Link(x, false) && unchanged(x.links)
    {
      ok := b.CompareAndSet(0, a, x, false, false);
      size := size + 1;
      nodes, owner := nodes + {x}, owner[x.links := x];
      index, chains := index[x.key.n := x], chains[0 := InsertAt(chains[0], pos + 1, x)];
    }

    /** The level-0 link of `lst[key] = val` on the window `find` left at
        level 0: `before_list[0][0].compare_and_set after_list[0], node,
        false, false`, then the size increment. The compare-and-set succeeds
        (so the restart of `[]=` is never taken); the new node `x` joins
        level 0 between `b` and `a` and becomes the entry of its key, and the
        list is valid but for `x`'s upper levels, still to be linked. */
    method LinkBottom(x: Node<V>, b: Node<V>, a: Node<V>, ghost pos: int) returns (ok: bool)
      requires Valid() && x !in nodes && x.links !in owner
      requires x.key.Num? && x.key.n !in index && x.val.Some?
      requires x.links.Length == x.toplevel + 1 && x.toplevel <= levelMax
      requires forall l :: 0 <= l < x.links.Length ==> !x.links[l].mark
      requires x.links[0] == Link(a, false)
      requires Window(chains[0], x.key.n, b, a, pos) && 0 < b.links.Length && b.links[0] == Link(a, false)
      requires Below(x.key, a.key)
      modifies this, b.links
      ensures ok && Inv(x) && NodesOk(null)
      ensures nodes == old(nodes) + {x} && owner == old(owner)[x.links := x]
      ensures index == old(index)[x.key.n := x] && size == old(size) + 1
      ensures chains == old(chains)[0 := InsertAt(old(chains[0]), pos + 1, x)]
      ensures unchanged(x.links)
    {
      assert LevelOk(0);
      Distinct(0, pos);
      ok := SpliceBottom(x, b, a, pos);
      ghost var site := Site(b, 0, pos);
      assert Inserted(site);
      Added(site);
    }

    /** The whole effect of linking the pending entry `x` into an upper
        level at `site`: one more node on that level, no other cell, node or
        entry changed. The list stays valid but for `x`'s remaining levels. */
    twostate lemma Raised(site: Site<V>)
      requires Kept(site) && Inserted(site) && ValsKept()
      requires nodes == old(nodes) && owner == old(owner) && index == old(index) && size == old(size)
      requires site.node.links[site.level].mark == old(site.node.links[site.level].mark)
      requires forall m :: 0 <= m < |old(chains[site.level])| && m != site.pos ==> old(chains[site.level][m]) != site.node
      requires forall l :: 0 <= l < |chains| && l != site.level ==> chains[l] == old(chains[l])
      requires var x := chains[site.level][site.pos + 1]; x in old(nodes) && old(Inv(x)) && old(NodesOk(null))
      ensures Inv(chains[site.level][site.pos + 1]) && NodesOk(null)
    {
      assert old(LevelOk(site.level));
      NodesKept(site);
      LevelsAfterInsert(site);
      IndexAfterLink(site);
    }

    /** The compare-and-set of an upper-level link in `lst[key] = val`, with
        the bookkeeping of the ghost state: `b`, holding `a` unmarked at
        `level`, now holds the node `x`, which joins that level. No other
        cell changes. */
    method SpliceUp(x: Node<V>, level: nat, b: Node<V>, a: Node<V>, ghost pos: int) returns (ok: bool)
      requires b in nodes && x in nodes && b != x && forall n :: n in nodes ==> n.links in owner && owner[n.links] == n
      requires level < b.links.Length && b.links[level] == Link(a, false)
      requires level < |chains| && 0 <= pos < |chains[level]|
      modifies this, b.links
      ensures ok && Kept(Site(b, level, pos)) && ValsKept()
      ensures nodes == old(nodes) && owner == old(owner) && index == old(index) && size == old(size)
      ensures chains == old(chains)[level := InsertAt(old(chains[level]), pos + 1, x)]
      ensures forall l :: 0 <= l < |chains| && l != level ==> chains[l] == old(chains[l])
      ensures b.links[level] == Link(x, false) && unchanged(x.links)
    {
      ok := b.CompareAndSet(level, a, x, false, false);
      chains := chains[level := InsertAt(chains[level], pos + 1, x)];
    }

    /** One upper-level link of `lst[key] = val`:
        `before_list[level][level].compare_and_set after_list[level], node,
        false, false` on the window `find` left at that level. It succeeds,
        so the retry through `find` is never taken, and the entry `x` joins
        level `level` between `b` and `a`. */
    method LinkLevel(x: Node<V>, level: nat, b: Node<V>, a: Node<V>, ghost pos: int) returns (ok: bool)
      requires Inv(x) && NodesOk(null) && 0 < level <= levelMax
      requires x.key.Num? && x.key.n in index && index[x.key.n] == x
      requires level < x.links.Length && x.links[level] == Link(a, false)
      requires Window(chains[level], x.key.n, b, a, pos) && level < b.links.Length && b.links[level] == Link(a, false)
      requires Below(x.key, a.key)
      modifies this, b.links
      ensures ok && Inv(x) && NodesOk(null) && OnlyLevel(level) && OnLevel(x, level)
      ensures chains[level] == InsertAt(old(chains[level]), pos + 1, x)
      ensures unchanged(x.links)
    {
      assert LevelOk(level);
      Distinct(level, pos);
      ok := SpliceUp(x, level, b, a, pos);
      ghost var site := Site(b, level, pos);
      assert Inserted(site);
      Raised(site);
    }

    /** Once the pending entry `x` is on every level up to its top, the list
        is valid again. */
    lemma Settled(x: Node<V>)
      requires Inv(x) && NodesOk(null)
      requires x.key.Num? && x.key.n in index && index[x.key.n] == x
      requires forall l :: 0 <= l < x.links.Length ==> OnLevel(x, l)
      ensures Valid()
    {
    }

    /** `p.val = val` on the entry of `key`: the map now sends `key` to `val`
        and nothing else changes. */
    method SetVal(p: Node<V>, key: int, val: V)
      requires Valid() && key in index && index[key] == p
      modifies p
      ensures Valid() && Contents() == old(Contents())[key := val]
    {
      p.val := Some(val);
      forall k | k in index && k != key
        ensures index[k] != p && index[k].val == old(index[k].val)
      {
        assert index[k].key == Num(k);
      }
    }

    /** The node of an insertion: `Node.new toplevel, key, val`, then its
        cell at each level l holds `after_list[l]` unmarked. */
    static method NewNode(toplevel: nat, key: int, val: V, after: seq<Node<V>>) returns (node: Node<V>)
      requires toplevel < |after|
      ensures fresh(node) && fresh(node.links)
      ensures node.toplevel == toplevel && node.key == Num(key) && node.val == Some(val)
      ensures node.links.Length == toplevel + 1
      ensures forall l :: 0 <= l < node.links.Length ==> node.links[l] == Link(after[l], false)
    {
      node := new Node<V>(toplevel, Num(key), Some(val));
      var level := 0;
      while level <= toplevel
        invariant 0 <= level <= toplevel + 1
        invariant forall l :: 0 <= l < level ==> node.links[l] == Link(after[l], false)
        modifies node.links
      {
        node.links[level] := Link(after[level], false);
        level := level + 1;
      }
    }

    /** Where the upper-level loop of `lst[key] = val` stands before linking
        level `level`: the pending entry `x` is on the levels below, the
        levels from `level` up are as `find` left them (`chains0`), and each
        of them still holds its window, which `x`'s cell there points past. */
    ghost predicate Raising(x: Node<V>, level: nat, before: seq<Node<V>>, after: seq<Node<V>>,
                            pos: seq<int>, chains0: seq<seq<Node<V>>>)
      reads this, Repr()
    {
      && Inv(x) && NodesOk(null) && |chains| == |chains0| == levelMax + 1
      && x.key.Num? && x.key.n in index && index[x.key.n] == x
      && |before| == |after| == |pos| == levelMax + 1 && 1 <= level <= x.links.Length
      && (forall l :: 0 <= l < level ==> x in chains[l])
      && (forall l :: level <= l <= levelMax ==> chains[l] == chains0[l])
      && (forall l :: level <= l < x.links.Length ==>
            && HeadOrEntry(before[l]) && TailOrEntry(after[l])
            && Window(chains0[l], x.key.n, before[l], after[l], pos[l])
            && Below(x.key, after[l].key) && x.links[l] == Link(after[l], false))
    }

    /** One pass of the upper-level loop: link `x` at `level`. */
    method RaiseOne(x: Node<V>, level: nat, before: seq<Node<V>>, after: seq<Node<V>>,
                    ghost pos: seq<int>, ghost chains0: seq<seq<Node<V>>>)
      requires Raising(x, level, before, after, pos, chains0) && level < x.links.Length
      modifies this, owner.Keys
      ensures Raising(x, level + 1, before, after, pos, chains0)
      ensures nodes == old(nodes) && owner == old(owner) && index == old(index) && size == old(size)
    {
      assert LevelOk(level) && chains[level] == chains0[level];
      Linkage(level, x.key.n, before[level], after[level], pos[level]);
      ghost var prev := chains;
      var ok := LinkLevel(x, level, before[level], after[level], pos[level]);
      forall l | 0 <= l <= level
        ensures x in chains[l]
      {
        if l < level {
          assert chains[l] == prev[l];
        }
      }
    }

    /** The upper-level loop of `lst[key] = val`: link the pending entry `x`,
        already on level 0, into each level 1 .. its top on the window `find`
        left there. The list is then valid again. */
    method LinkUpper(x: Node<V>, before: seq<Node<V>>, after: seq<Node<V>>, ghost pos: seq<int>)
      requires Raising(x, 1, before, after, pos, chains)
      modifies this, owner.Keys
      ensures Valid()
      ensures nodes == old(nodes) && owner == old(owner) && index == old(index) && size == old(size)
    {
      ghost var chains0 := chains;
      var level := 1;
      while level < x.links.Length
        invariant Raising(x, level, before, after, pos, chains0)
        invariant nodes == old(nodes) && owner == old(owner) && index == old(index) && size == old(size)
      {
        RaiseOne(x, level, before, after, pos, chains0);
        level := level + 1;
      }
      Settled(x);
    }

    /** Entering `x` under a fresh key keeps the head, the tail and every
        entry what they were. */
    lemma EntryKept(p: Node<V>, q: Node<V>, index0: map<int, Node<V>>, x: Node<V>)
      requires x.key.Num? && x.key.n !in index0 && index == index0[x.key.n := x]
      requires p == head || (p.key.Num? && p.key.n in index0 && index0[p.key.n] == p)
      requires q == tail || (q.key.Num? && q.key.n in index0 && index0[q.key.n] == q)
      ensures HeadOrEntry(p) && TailOrEntry(q)
    {
    }

    /** The insertion branch of `lst[key] = val`, for a key `find` did not
        meet: link the new node `x` at level 0 (the size grows by one), then
        at each upper level. The map gains `key`, with `x`'s value. */
    method Insert(x: Node<V>, before: seq<Node<V>>, after: seq<Node<V>>, ghost pos: seq<int>)
      requires Valid() && x !in nodes && x.links !in owner
      requires x.key.Num? && x.key.n !in index && x.val.Some?
      requires x.links.Length == x.toplevel + 1 && x.toplevel <= levelMax
      requires Windows(x.key.n, 0, before, after, pos)
      requires forall l :: 0 <= l < x.links.Length ==> x.links[l] == Link(after[l], false)
      modifies this, owner.Keys, x.links
      ensures Valid() && nodes == old(nodes) + {x}
      ensures index == old(index)[x.key.n := x] && size == old(size) + 1
      ensures Contents() == old(Contents())[x.key.n := x.val.value]
    {
      InsertBottom(x, before, after, pos);
      LinkUpper(x, before, after, pos);
      ContentsAdded(x);
    }

    /** With the same entries and none of their values changed, the map is
        the same. */
    twostate lemma ContentsKept()
      requires index == old(index)
      requires forall n :: n in old(index).Values ==> n.val == old(n.val)
      ensures Contents() == old(Contents())
    {
      var m, m0 := Contents(), old(Contents());
      forall k | k in index
        ensures index[k].val == old(index[k].val)
      {
        assert index[k] in old(index).Values;
      }
    }

    /** Entering `x` under a key, with no value of the other entries
        changed, maps that key to `x`'s value and leaves the rest of the map
        alone. */
    twostate lemma ContentsAdded(x: Node<V>)
      requires x.key.Num? && x.val.Some? && index == old(index)[x.key.n := x]
      requires forall n :: n in old(index).Values ==> n.val == old(n.val)
      ensures Contents() == old(Contents())[x.key.n := x.val.value]
    {
      var m, m0 := Contents(), old(Contents());
      forall k | k in index && k != x.key.n
        ensures index[k].val == old(index[k].val)
      {
        assert index[k] in old(index).Values;
      }
      assert m.Keys == m0.Keys + {x.key.n};
    }

    /** The level-0 part of the insertion branch of `lst[key] = val`: link
        the new node `x` at level 0 on the window `find` left there; the upper
        windows are untouched and the loop over them can start. */
    method InsertBottom(x: Node<V>, before: seq<Node<V>>, after: seq<Node<V>>, ghost pos: seq<int>)
      requires Valid() && x !in nodes && x.links !in owner
      requires x.key.Num? && x.key.n !in index && x.val.Some?
      requires x.links.Length == x.toplevel + 1 && x.toplevel <= levelMax
      requires Windows(x.key.n, 0, before, after, pos)
      requires forall l :: 0 <= l < x.links.Length ==> x.links[l] == Link(after[l], false)
      modifies this, owner.Keys
      ensures Raising(x, 1, before, after, pos, chains)
      ensures nodes == old(nodes) + {x} && owner == old(owner)[x.links := x]
      ensures index == old(index)[x.key.n := x] && size == old(size) + 1
    {
      assert LevelOk(0);
      Linkage(0, x.key.n, before[0], after[0], pos[0]);
      var ok := LinkBottom(x, before[0], after[0], pos[0]);
      assert x in chains[0] by { assert chains[0][pos[0] + 1] == x; }
      forall l | 1 <= l < x.links.Length
        ensures HeadOrEntry(before[l]) && TailOrEntry(after[l])
        ensures Window(chains[l], x.key.n, before[l], after[l], pos[l])
      {
        assert chains[l] == old(chains[l]);
        EntryKept(before[l], after[l], old(index), x);
      }
    }

    /** `lst[key] = val`: when `find` meets the key, its node takes the new
        value; otherwise a node of `rand2exp(level_max)` levels (`draw` stands
        for the random number) is linked at level 0, the size grows by one,
        and the node is linked into each upper level. The answer is `val`. */
    method Put(key: int, val: V, draw: nat) returns (r: V)
      requires Valid() && Fits(key) && draw < Levels.Pow2(levelMax + 1) - 1
      modifies this, owner.Keys, nodes
      ensures Valid() && r == val
      ensures Contents() == old(Contents())[key := val]
      ensures size == old(size) + (if key in old(Contents()) then 0 else 1)
      ensures key !in old(Contents()) ==>
                key in index && index[key].toplevel == levelMax - Levels.HighBit(1 + draw)
                && forall l :: 0 <= l <= index[key].toplevel ==> index[key] in chains[l]
    {
      var found, before, after, pos := Find(key);
      if found != null {
        SetVal(found, key, val);
        return val;
      }
      Add(key, val, draw, before, after, pos);
      r := val;
    }

    /** The branch of `lst[key] = val` for a key `find` did not meet: a node
        of `rand2exp(level_max)` levels (`draw` stands for the random number)
        holding `key` and `val`, linked on the windows `find` recorded. */
    method Add(key: int, val: V, draw: nat, before: seq<Node<V>>, after: seq<Node<V>>, ghost pos: seq<int>)
      requires Valid() && key !in index && draw < Levels.Pow2(levelMax + 1) - 1
      requires Windows(key, 0, before, after, pos) && |after| == levelMax + 1
      modifies this, owner.Keys
      ensures Valid() && size == old(size) + 1
      ensures Contents() == old(Contents())[key := val]
      ensures key in index && index[key].toplevel == levelMax - Levels.HighBit(1 + draw)
      ensures forall l :: 0 <= l <= index[key].toplevel ==> index[key] in chains[l]
    {
      var toplevel := Levels.Rand2Exp(levelMax, draw);
      var node := NewNode(toplevel, key, val, after);
      Insert(node, before, after, pos);
      forall l | 0 <= l <= node.toplevel
        ensures node in chains[l]
      {
        assert index[key] == node && OnLevel(index[key], l);
      }
    }

    /** Where `delete` stands while it marks the entry `p` from the top
        level down: the list is valid but for `p`, which is still the entry
        of its key and whose cells above `level` are marked already. */
    ghost predicate Marking(p: Node<V>, level: nat)
      reads this, Repr()
    {
      && Inv(p) && p.key.Num? && p.key.n in index && index[p.key.n] == p && level < p.links.Length
      && forall l :: level < l < p.links.Length ==> p.links[l].mark
    }

    /** A mark set at `site`, with the successor there kept and no other
        cell changed, leaves that level well formed, provided every entry
        still unmarked keeps its place in the index. */
    twostate lemma MarkedLevel(site: Site<V>)
      requires site.level < |chains| == |old(chains)| && chains[site.level] == old(chains[site.level])
      requires old(LevelOk(site.level)) && old(nodes) <= nodes && old(owner.Keys) <= owner.Keys
      requires Kept(site) && site.node in old(nodes) && site.node != head && site.node != tail
      requires site.level < site.node.links.Length
      requires site.node.links[site.level] == Link(old(site.node.links[site.level].ref), true)
      requires forall k :: k in old(index) && 0 < old(index)[k].links.Length && !old(index)[k].links[0].mark ==>
                 k in index && index[k] == old(index)[k]
      ensures LevelOk(site.level)
    {
      var l := site.level;
      ghost var c := chains[l];
      forall a | 0 <= a < |c| - 1
        ensures c[a].links[l].ref == c[a + 1] && Below(c[a].key, c[a + 1].key)
      {
        assert old(c[a].links[l].ref) == c[a + 1];
      }
      forall i | 0 < i < |c| - 1 && !c[i].links[0].mark
        ensures c[i].key.Num? && c[i].key.n in index && index[c[i].key.n] == c[i]
      {
        assert !old(c[i].links[0].mark);
      }
    }

    /** A mark set at `site` on the node being deleted keeps the node
        invariant with that node pending, and once all its cells are marked,
        with none pending. */
    twostate lemma NodesMarked(site: Site<V>)
      requires old(NodesOk(site.node)) && nodes == old(nodes) && owner == old(owner)
      requires Kept(site) && ValsKept()
      ensures NodesOk(site.node)
      ensures (forall l :: 0 <= l < site.node.links.Length ==> site.node.links[l].mark) ==> NodesOk(null)
    {
      forall n, k | n in nodes && n != site.node && 0 <= k < n.links.Length
        ensures n.links[k].mark == n.links[0].mark
      {
        assert old(n.links[k].mark == n.links[0].mark);
      }
    }

    /** An upper-level mark on the entry being deleted keeps the index. */
    twostate lemma IndexMarked(site: Site<V>)
      requires old(IndexOk(site.node)) && 1 <= site.level
      requires nodes == old(nodes) && owner == old(owner) && chains == old(chains) && index == old(index)
      requires Kept(site)
      ensures IndexOk(site.node)
    {
      forall k | k in index
        ensures !index[k].links[0].mark
      {
        assert !old(index[k].links[0].mark);
      }
      forall k, l | k in index && index[k] != site.node && 0 <= l < index[k].links.Length
        ensures OnLevel(index[k], l)
      {
        assert old(OnLevel(index[k], l));
      }
    }

    /** Marking level 0 of the entry being deleted, and dropping its key,
        leaves an index of the other entries, all on their levels. */
    twostate lemma IndexRemoved(site: Site<V>)
      requires old(IndexOk(site.node)) && site.node.key.Num? && site.node.key.n in old(index)
      requires old(index)[site.node.key.n] == site.node
      requires nodes == old(nodes) && owner == old(owner) && chains == old(chains)
      requires index == old(index) - {site.node.key.n} && Kept(site)
      ensures IndexOk(null)
    {
      forall k | k in index
        ensures index[k] != site.node && index[k] == old(index)[k]
        ensures !index[k].links[0].mark
      {
        assert index[k].key == Num(k);
        assert !old(index[k].links[0].mark);
      }
      forall k, l | k in index && 0 <= l < index[k].links.Length
        ensures OnLevel(index[k], l)
      {
        assert old(OnLevel(index[k], l));
      }
    }

    /** Marking the cell at `site`, an upper level of the entry being
        deleted, keeps the list valid but for that entry. */
    twostate lemma MarkedAbove(site: Site<V>)
      requires old(Marking(site.node, site.level)) && 1 <= site.level
      requires nodes == old(nodes) && owner == old(owner) && chains == old(chains)
      requires index == old(index) && size == old(size)
      requires Kept(site) && ValsKept()
      requires site.node.links[site.level] == Link(old(site.node.links[site.level].ref), true)
      ensures Marking(site.node, site.level - 1)
    {
      assert old(LevelOk(site.level));
      LevelsKept(site);
      MarkedLevel(site);
      NodesMarked(site);
      IndexMarked(site);
    }

    /** One level of the upper loop of `delete`: mark the cell of `p` at
        `level`, which keeps its successor. */
    method MarkLevel(p: Node<V>, level: nat)
      requires Marking(p, level) && 1 <= level
      modifies p.links
      ensures Marking(p, level - 1)
    {
      p.MarkAt(level);
      ghost var site := Site(p, level, 0);
      assert Kept(site);
      MarkedAbove(site);
    }

    /** The upper loop of `delete`, `p.toplevel.downto(1)`: mark the cells
        of `p` from its top level down to level 1. */
    method MarkUpper(p: Node<V>)
      requires Marking(p, p.toplevel)
      modifies p.links
      ensures Marking(p, 0)
    {
      var level: nat := p.toplevel;
      while level >= 1
        invariant Marking(p, level)
      {
        MarkLevel(p, level);
        level := level - 1;
      }
    }

    /** Marking level 0 of the entry being deleted, once its upper levels are
        marked, and dropping its key from the index, gives a valid list. */
    twostate lemma MarkedBottom(site: Site<V>)
      requires old(Marking(site.node, 0)) && site.level == 0
      requires nodes == old(nodes) && owner == old(owner) && chains == old(chains)
      requires index == old(index) - {site.node.key.n} && size == old(size) - 1
      requires Kept(site) && ValsKept()
      requires site.node.links[0] == Link(old(site.node.links[0].ref), true)
      ensures Valid()
    {
      assert index.Keys + {site.node.key.n} == old(index).Keys;
      assert old(LevelOk(0));
      LevelsKept(site);
      MarkedLevel(site);
      NodesMarked(site);
      IndexRemoved(site);
    }

    /** The bottom loop of `delete`: compare-and-set the level-0 cell of `p`
        from unmarked to marked; on success the size drops by one and the
        answer is the node's value, and a cell found marked by someone else
        would answer nil. Run alone, the first attempt succeeds, and the key
        leaves the map. */
    method MarkBottom(p: Node<V>) returns (r: Option<V>)
      requires Marking(p, 0)
      modifies this, p.links
      ensures Valid() && nodes == old(nodes) && owner == old(owner) && chains == old(chains)
      ensures index == old(index) - {p.key.n} && size == old(size) - 1
      ensures r == p.val && p.links[0].mark
    {
      var pp := p.links[0].ref;
      var done := false;
      r := None;
      while !done
        invariant nodes == old(nodes) && owner == old(owner) && chains == old(chains) && index == old(index)
        invariant pp == old(p.links[0].ref)
        invariant !done ==> p.links[0] == Link(pp, false) && size == old(size)
        invariant done ==> p.links[0] == Link(pp, true) && size == old(size) - 1 && r == p.val
        invariant forall l :: 0 < l < p.links.Length ==> p.links[l] == old(p.links[l])
        decreases if done then 0 else 1
      {
        var marked := p.CompareAndSet(0, pp, pp, false, true);
        var mark;
        pp, mark := p.links[0].ref, p.links[0].mark;
        if marked {
          size := size - 1;
          r := p.val;
          done := true;
        } else if mark {
          r := None;
          done := true;
        }
      }
      index := index - {p.key.n};
      ghost var site := Site(p, 0, 0);
      assert Kept(site);
      MarkedBottom(site);
    }

    /** A valid list is in the state `delete` marks from, for any entry. */
    lemma StartMarking(p: Node<V>)
      requires Valid() && p.key.Num? && p.key.n in index && index[p.key.n] == p
      ensures Marking(p, p.toplevel)
    {
      assert p.links in owner && owner[p.links] == p;
    }

    /** The marking part of `delete` for the entry `p`: its cells from the
        top level down, level 0 last. The list stays valid, `p`'s key leaves
        the index and the size, and the answer is `p`'s value. */
    method Remove(p: Node<V>) returns (r: Option<V>)
      requires Valid() && p.key.Num? && p.key.n in index && index[p.key.n] == p
      modifies this, p.links
      ensures Valid() && nodes == old(nodes) && owner == old(owner) && chains == old(chains)
      ensures index == old(index) - {p.key.n} && size == old(size) - 1
      ensures r == p.val && p.links[0].mark
    {
      StartMarking(p);
      MarkUpper(p);
      r := MarkBottom(p);
    }

    /** Dropping one key from the index, with no value changed, drops that
        key from the map. */
    twostate lemma ContentsRemoved(key: int)
      requires index == old(index) - {key}
      requires forall n :: n in old(index).Values ==> n.val == old(n.val)
      ensures Contents() == old(Contents()) - {key}
    {
      forall k | k in index
        ensures index[k].val == old(index[k].val)
      {
        assert index[k] in old(index).Values;
      }
    }

    /** `lst.delete key`: `find` the key's node; when there is none the
        answer is nil. Otherwise mark its cells from the top level down to
        level 1, then mark level 0, which removes the key from the map and
        the size, and answer the removed value. The marked node stays linked
        until a later `find` snips it. */
    method Delete(key: int) returns (r: Option<V>)
      requires Valid() && Fits(key)
      modifies this, owner.Keys
      ensures Valid()
      ensures r == if key in old(Contents()) then Some(old(Contents())[key]) else None
      ensures Contents() == old(Contents()) - {key}
      ensures size == old(size) - (if key in old(Contents()) then 1 else 0)
      ensures key in old(Contents()) ==>
                exists n :: n in chains[0] && n.key == Num(key) && 0 < n.links.Length && n.links[0].mark
    {
      var p, before, after, pos := Find(key);
      if p == null {
        return None;
      }
      ghost var q := pos[0] + 1;
      r := Remove(p);
      ContentsRemoved(key);
      assert chains[0][q] == p;
    }

    /** The keys of the map are the keys of the index: every entry holds a
        value. */
    lemma ContentsKeys()
      requires Valid()
      ensures Contents().Keys == index.Keys && |Contents()| == size
    {
      forall k | k in index
        ensures k in Contents()
      {
        assert index[k] in nodes && index[k] != head && index[k] != tail;
      }
      assert Contents().Keys == index.Keys;
    }

    /** Every entry stands unmarked between head and tail on level 0. */
    lemma EntryOnBottom(k: int)
      requires Valid() && k in index
      ensures exists q :: 0 < q < |chains[0]| - 1 && chains[0][q] == index[k] && !chains[0][q].links[0].mark
    {
      assert LevelOk(0) && OnLevel(index[k], 0);
      var q :| 0 <= q < |chains[0]| && chains[0][q] == index[k];
      assert 0 < q < |chains[0]| - 1;
    }

    /** Level 0 holds an unmarked node between head and tail exactly when
        the map is not empty. */
    lemma EmptyIffAllMarked(j: int)
      requires Valid() && LevelOk(0) && 0 < j < |chains[0]|
      requires forall i :: 0 < i < j ==> chains[0][i].links[0].mark
      requires !chains[0][j].links[0].mark
      ensures chains[0][j] == tail <==> Contents() == map[]
    {
      ContentsKeys();
      assert LevelOk(0);
      if chains[0][j] == tail {
        forall k | k in index
          ensures exists q :: 0 < q < |chains[0]| - 1 && chains[0][q] == index[k] && !chains[0][q].links[0].mark
        {
          EntryOnBottom(k);
        }
      } else {
        assert chains[0][j].key.n in index;
      }
    }

    /** `lst.empty?`: from the first node after the head, follow level 0
        while the node read is marked; the list is empty when this stops at
        the tail. The answer is whether the map is empty. */
    method IsEmpty() returns (r: bool)
      requires Valid()
      ensures r <==> Contents() == map[]
      ensures r <==> size == 0
    {
      assert LevelOk(0);
      ghost var c := chains[0];
      var p := head.links[0].ref;
      ghost var j := 1;
      var pp, m := p.links[0].ref, p.links[0].mark;
      while m
        invariant 1 <= j < |c| && c[j] == p && p.links[0] == Link(pp, m)
        invariant forall i :: 0 < i < j ==> c[i].links[0].mark
        decreases |c| - j
      {
        p := pp;
        j := j + 1;
        pp, m := p.links[0].ref, p.links[0].mark;
      }
      r := p == tail;
      EmptyIffAllMarked(j);
      ContentsKeys();
    }

    /** `lst.size`: the number of keys in the map. */
    method Size() returns (n: int)
      requires Valid()
      ensures n == |Contents()|
    {
      ContentsKeys();
      n := size;
    }

    /** What `to_a` reads of level 0, head to tail. */
    ghost function BottomCells(): (cells: seq<Cell<V>>)
      requires Valid()
      reads this, Repr()
      ensures LevelOk(0) && |cells| == |chains[0]|
      ensures forall i :: 0 <= i < |cells| ==>
                cells[i] == Cell(chains[0][i].key, chains[0][i].val, chains[0][i].links[0].mark)
    {
      assert LevelOk(0);
      var c := chains[0];
      seq(|c|, i requires 0 <= i < |c| && 0 < c[i].links.Length reads c, set n | n in c :: n.links =>
        Cell(c[i].key, c[i].val, c[i].links[0].mark))
    }

    /** Keys ascend along level 0, which ends with the unmarked tail. */
    lemma BottomAscends()
      requires Valid()
      ensures Ascend(BottomCells())
    {
      var c, cells := chains[0], BottomCells();
      forall a | 0 <= a < |cells| - 1
        ensures Below(cells[a].key, cells[a + 1].key)
      {
        assert c[a].links[0].ref == c[a + 1];
      }
    }

    /** Each unmarked node of level 0 between head and tail holds a key of
        the map with its value. */
    lemma BottomUnmarkedIn()
      requires Valid()
      ensures UnmarkedIn(BottomCells(), Contents())
    {
      ContentsKeys();
      var c, cells := chains[0], BottomCells();
      forall i | 0 < i < |cells| - 1 && !cells[i].mark
        ensures cells[i].key.Num? && cells[i].key.n in Contents()
        ensures cells[i].val == Some(Contents()[cells[i].key.n])
      {
        assert !c[i].links[0].mark;
      }
    }

    /** Each key of the map is on an unmarked node of level 0. */
    lemma BottomCovers()
      requires Valid()
      ensures forall k :: k in Contents() ==>
                exists i :: 0 < i < |BottomCells()| - 1 && !BottomCells()[i].mark && BottomCells()[i].key == Num(k)
    {
      ContentsKeys();
      var c, cells := chains[0], BottomCells();
      forall k | k in Contents()
        ensures exists i :: 0 < i < |cells| - 1 && !cells[i].mark && cells[i].key == Num(k)
      {
        EntryOnBottom(k);
        var q :| 0 < q < |c| - 1 && c[q] == index[k] && !c[q].links[0].mark;
        assert cells[q].key == Num(k);
      }
    }

    /** The level 0 of a valid list shows its map. */
    lemma BottomShowsMap()
      requires Valid()
      ensures ShowsMap(BottomCells(), Contents())
    {
      BottomAscends();
      BottomUnmarkedIn();
      BottomCovers();
    }

    /** The loop of `to_a` as written: walk level 0 from the head, reading
        each node together with the mark of the cell that led to it, and
        push the node's pair when that mark is clear. `cs` is what was read. */
    method PushAsWritten() returns (arr: seq<(Element, Option<V>)>, ghost cs: seq<Cell<V>>)
      requires Linked(0)
      ensures |cs| == |chains[0]|
      ensures forall i :: 0 <= i < |cs| ==>
                cs[i] == Cell(chains[0][i].key, chains[0][i].val, chains[0][i].links[0].mark)
      ensures arr == PushedAsWritten(cs)
    {
      ghost var c := chains[0];
      cs := [Cell(head.key, head.val, head.links[0].mark)];
      arr := [];
      var p: Node?<V> := head.links[0].ref;
      var m := head.links[0].mark;
      ghost var j := 1;
      while p != null
        invariant 1 <= j <= |c| && (if j < |c| then p == c[j] else p == null)
        invariant |cs| == j && m == c[j - 1].links[0].mark
        invariant forall i :: 0 <= i < j ==> cs[i] == Cell(c[i].key, c[i].val, c[i].links[0].mark)
        invariant arr == PushedAsWritten(cs)
        decreases |c| - j
      {
        PushedAsWrittenSnoc(cs, Cell(p.key, p.val, p.links[0].mark));
        cs := cs + [Cell(p.key, p.val, p.links[0].mark)];
        if !m {
          arr := arr + [(p.key, p.val)];
        }
        p, m := p.links[0].ref, p.links[0].mark;
        j := j + 1;
      }
    }

    /** `lst.to_a` as written: the loop above, then `pop` the last pair,
        meant to be the tail's. */
    method ToA() returns (arr: seq<(Element, Option<V>)>)
      requires Valid()
      ensures arr == Pop(PushedAsWritten(BottomCells()))
    {
      assert LevelOk(0);
      ghost var cs;
      arr, cs := PushAsWritten();
      assert cs == BottomCells();
      arr := Pop(arr);
    }

    /** While no node of level 0 is marked (none deleted since the last
        snip), `to_a` as written lists the map with its keys ascending. */
    lemma ToAListsMapUnmarked()
      requires Valid()
      requires forall i :: 0 <= i < |BottomCells()| ==> !BottomCells()[i].mark
      ensures ListsMap(Pop(PushedAsWritten(BottomCells())), Contents())
    {
      var cells := BottomCells();
      AsWrittenUnmarked(cells);
      BottomShowsMap();
      UnmarkedListMap(cells, Contents());
    }

    /** The loop of `to_a` with the mark read where it belongs: push a
        node's pair when its OWN level-0 cell is unmarked. */
    method PushUnmarked() returns (arr: seq<(Element, Option<V>)>, ghost cs: seq<Cell<V>>)
      requires Linked(0)
      ensures |cs| == |chains[0]|
      ensures forall i :: 0 <= i < |cs| ==>
                cs[i] == Cell(chains[0][i].key, chains[0][i].val, chains[0][i].links[0].mark)
      ensures arr == PushedUnmarked(cs)
    {
      ghost var c := chains[0];
      cs := [Cell(head.key, head.val, head.links[0].mark)];
      arr := [];
      var p: Node?<V> := head.links[0].ref;
      ghost var j := 1;
      while p != null
        invariant 1 <= j <= |c| && (if j < |c| then p == c[j] else p == null)
        invariant |cs| == j
        invariant forall i :: 0 <= i < j ==> cs[i] == Cell(c[i].key, c[i].val, c[i].links[0].mark)
        invariant arr == PushedUnmarked(cs)
        decreases |c| - j
      {
        var pp, m := p.links[0].ref, p.links[0].mark;
        PushedUnmarkedSnoc(cs, Cell(p.key, p.val, m));
        cs := cs + [Cell(p.key, p.val, m)];
        if !m {
          arr := arr + [(p.key, p.val)];
        }
        p := pp;
        j := j + 1;
      }
    }

    /** `lst.to_a` with the mark read where it belongs, then `pop` of the
        tail's pair. The answer lists the map with its keys ascending. */
    method ToACorrected() returns (arr: seq<(Element, Option<V>)>)
      requires Valid()
      ensures arr == Pop(PushedUnmarked(BottomCells()))
      ensures ListsMap(arr, Contents())
    {
      assert LevelOk(0);
      ghost var cs;
      arr, cs := PushUnmarked();
      assert cs == BottomCells();
      arr := Pop(arr);
      BottomShowsMap();
      UnmarkedListMap(cs, Contents());
    }

    /** `SkipList.new`: a negative `level_max` raises ArgumentError. */
    static method New(levelMax: int, maxElement: Option<int>) returns (r: MarkedLink.Result<SkipList<V>>)
      ensures levelMax < 0 <==> r.Err?
      ensures levelMax < 0 ==> r.error == MarkedLink.ArgumentError("level_max must not be negative")
      ensures r.Ok? ==> fresh(r.value) && r.value.Valid() && r.value.levelMax == levelMax
                        && r.value.size == 0 && r.value.Contents() == map[]
    {
      if levelMax < 0 {
        return MarkedLink.Err(MarkedLink.ArgumentError("level_max must not be negative"));
      }
      var s := new SkipList<V>(levelMax, maxElement);
      r := MarkedLink.Ok(s);
    }
  }
}
