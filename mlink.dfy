/** `SkipList::MLink`: one machine word holding a reference to a node and a
    deletion mark. References are Ruby VALUEs of heap objects, which are always
    even, so the low bit of the word is free to carry the mark. */
module MarkedLink {

  /** A Ruby VALUE, one unsigned machine word. The bit operations of the
      source on bit 0 are written with arithmetic: `w & ~1` is `w - w % 2`,
      `w & 1` is `w % 2`, and `l | 1` on an even `l` is `l + 1`. */
  newtype Word = w: int | 0 <= w < 0x1_0000_0000_0000_0000

  /** The VALUEs of `false` and `true` (Ruby 1.9 representation). */
  const QFALSE: Word := 0
  const QTRUE: Word := 2

  datatype Error = ArgumentError(message: string)

  datatype Result<T> = Ok(value: T) | Err(error: Error)

  /** The reference part of a word: `word & ~1`. */
  function LinkOf(w: Word): (link: Word)
    ensures link % 2 == 0
    ensures link == w || link + 1 == w
  {
    w - w % 2
  }

  /** The mark part of a word: `word & 1`. */
  function MarkOf(w: Word): (mark: bool)
    ensures mark <==> w != LinkOf(w)
  {
    w % 2 == 1
  }

  /** `link | !!mark`: the word stored for an (even) reference and a mark. */
  function Pack(link: Word, mark: bool): (w: Word)
    requires link % 2 == 0
    ensures LinkOf(w) == link && MarkOf(w) == mark
  {
    link + (if mark then 1 else 0)
  }

  /** Every word is the packing of its own two parts, so a cell holds exactly
      one (reference, mark) pair. */
  lemma PackOfParts(w: Word)
    ensures Pack(LinkOf(w), MarkOf(w)) == w
  {
  }

  /** Packing is injective on even references: equal words mean equal pairs. */
  lemma PackInjective(l1: Word, m1: bool, l2: Word, m2: bool)
    requires l1 % 2 == 0 && l2 % 2 == 0
    ensures Pack(l1, m1) == Pack(l2, m2) <==> l1 == l2 && m1 == m2
  {
  }

  /** `!!v` on a VALUE: false only for `false` itself. */
  predicate Truthy(v: Word) {
    v != QFALSE
  }

  predicate IsBoolean(v: Word) {
    v == QFALSE || v == QTRUE
  }

  /** The word-level compare-and-swap `cas(addr, oldp, newp)`, taken as one
      sequential step: it succeeds iff the stored word equals `oldp`, and then
      the word becomes `newp`. Returns the outcome and the new word. */
  function Cas(w: Word, oldp: Word, newp: Word): (res: (bool, Word))
    ensures res.0 ==> res.1 == newp
    ensures !res.0 ==> res.1 == w
    ensures res.0 <==> w == oldp
  {
    if w == oldp then (true, newp) else (false, w)
  }

  /** Comparing whole words is comparing the (reference, mark) pairs: this is
      why the skip list may see a cell as a pair. */
  lemma CasComparesPairs(w: Word, oldlink: Word, oldmark: bool, newlink: Word, newmark: bool)
    requires oldlink % 2 == 0 && newlink % 2 == 0
    ensures Cas(w, Pack(oldlink, oldmark), Pack(newlink, newmark)).0
            <==> LinkOf(w) == oldlink && MarkOf(w) == oldmark
    ensures var (ok, w') := Cas(w, Pack(oldlink, oldmark), Pack(newlink, newmark));
            ok ==> LinkOf(w') == newlink && MarkOf(w') == newmark
  {
    PackOfParts(w);
    PackInjective(LinkOf(w), MarkOf(w), oldlink, oldmark);
  }

  /** The form `delete` uses, `compare_and_set(l, l, false, true)` on a cell
      holding `l` unmarked, changes the mark and nothing else. */
  lemma MarkOnlyFlipsTheBit(w: Word)
    requires !MarkOf(w)
    ensures var (ok, w') := Cas(w, Pack(LinkOf(w), false), Pack(LinkOf(w), true));
            ok && LinkOf(w') == LinkOf(w) && MarkOf(w')
  {
    PackOfParts(w);
  }

  class MLink {
    var word: Word

    /** `mlink_alloc`: a fresh cell holds the word 0. */
    constructor Alloc()
      ensures word == 0
    {
      word := 0;
    }

    /** `mlink_initialize`: stores an even link unmarked; an odd one (a
        Fixnum) raises ArgumentError and the cell keeps its word. */
    method Initialize(link: Word) returns (r: Result<()>)
      modifies this
      ensures link % 2 == 1 ==> r.Err? && word == old(word)
      ensures link % 2 == 0 ==> r.Ok? && LinkOf(word) == link && !MarkOf(word)
    {
      if link % 2 == 1 {
        return Err(ArgumentError("link must not be a Fixnum"));
      }
      word := link;
      r := Ok(());
    }

    /** `mlink_compare_and_set(oldlink, newlink, oldmark, newmark)` (note the
        argument order). Odd links or non-boolean marks raise ArgumentError and
        leave the word alone; otherwise the answer is whether the cell held
        (oldlink, oldmark), in which case it now holds (newlink, newmark). */
    method CompareAndSet(oldlink: Word, newlink: Word, oldmark: Word, newmark: Word)
      returns (r: Result<bool>)
      modifies this
      ensures (oldlink % 2 == 1 || newlink % 2 == 1) ==>
                r == Err(ArgumentError("link must not be a Fixnum")) && word == old(word)
      ensures oldlink % 2 == 0 && newlink % 2 == 0 && !(IsBoolean(oldmark) && IsBoolean(newmark)) ==>
                r == Err(ArgumentError("mark must be a boolean")) && word == old(word)
      ensures oldlink % 2 == 0 && newlink % 2 == 0 && IsBoolean(oldmark) && IsBoolean(newmark) ==>
                r.Ok?
                && (r.value <==> LinkOf(old(word)) == oldlink && MarkOf(old(word)) == Truthy(oldmark))
                && (r.value ==> LinkOf(word) == newlink && MarkOf(word) == Truthy(newmark))
                && (!r.value ==> word == old(word))
    {
      if oldlink % 2 == 1 || newlink % 2 == 1 {
        return Err(ArgumentError("link must not be a Fixnum"));
      }
      if !IsBoolean(oldmark) || !IsBoolean(newmark) {
        return Err(ArgumentError("mark must be a boolean"));
      }
      var olink := Pack(oldlink, Truthy(oldmark));
      var nlink := Pack(newlink, Truthy(newmark));
      CasComparesPairs(word, oldlink, Truthy(oldmark), newlink, Truthy(newmark));
      var res := Cas(word, olink, nlink);
      word := res.1;
      r := Ok(res.0);
    }

    /** `mlink_get`: the reference with the mark bit cleared, and the mark;
        packing them again gives back the stored word. */
    method Get() returns (link: Word, mark: bool)
      ensures link % 2 == 0 && Pack(link, mark) == word
    {
      link := word - word % 2;
      mark := word % 2 == 1;
    }

    /** `mlink_get_link`: the reference alone, never with the low bit set;
        it is the first component of `Get`. */
    method GetLink() returns (link: Word)
      ensures link % 2 == 0 && Pack(link, MarkOf(word)) == word
    {
      link := word - word % 2;
    }
  }
}
