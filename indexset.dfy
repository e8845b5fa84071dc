/**
 * A fixed-capacity set of natural numbers stored as a bit-vector of 64-bit
 * words.  An element is stored through its index alone (the `Idx()` of the
 * element), so the set is modelled over those indices: bit `i % 64` of word
 * `i / 64` is on exactly when `i` is a member.
 *
 * A 64-bit word is modelled as its 64 bits, lowest first: bit `p` of a word
 * (the bit that `1 << p` turns on) is element `p` of a `Word`.
 */
module IndexSets {

  // ---------------------------------------------------------------------
  // Words and bits
  // ---------------------------------------------------------------------

  /** A `uint64` as its bits; element `p` is bit `p`. */
  type Word = seq<bool>

  predicate IsWord(w: Word) {
    |w| == 64
  }

  /** Every word of `ws` has 64 bits. */
  predicate AllWords(ws: seq<Word>) {
    forall k :: 0 <= k < |ws| ==> IsWord(ws[k])
  }

  /** `uint64(0)`. */
  function ZeroWord(): (w: Word)
    ensures IsWord(w)
  {
    seq(64, _ => false)
  }

  /** `uint64(1) << bitpos`. */
  function Bit(bitpos: nat): (w: Word)
    requires bitpos < 64
    ensures IsWord(w)
  {
    seq(64, p => p == bitpos)
  }

  /** `a | b`, bit by bit. */
  function Or(a: Word, b: Word): (c: Word)
    requires IsWord(a) && IsWord(b)
    ensures IsWord(c)
  {
    seq(64, p requires 0 <= p < 64 => a[p] || b[p])
  }

  /** `a & b`, bit by bit. */
  function And(a: Word, b: Word): (c: Word)
    requires IsWord(a) && IsWord(b)
    ensures IsWord(c)
  {
    seq(64, p requires 0 <= p < 64 => a[p] && b[p])
  }

  /** `^a`, bit by bit. */
  function Not(a: Word): (c: Word)
    requires IsWord(a)
    ensures IsWord(c)
  {
    seq(64, p requires 0 <= p < 64 => !a[p])
  }

  /** `toggled`: whether `word & (1 << bitpos)` is non-zero. */
  function Toggled(bitpos: nat, word: Word): (r: bool)
    requires bitpos < 64 && IsWord(word)
    ensures r <==> word[bitpos]
  {
    var masked := And(word, Bit(bitpos));
    assert masked[bitpos] == word[bitpos];
    masked != ZeroWord()
  }

  /** OR with `1 << p` turns bit `p` on and leaves the other bits alone. */
  lemma OrBit(w: Word, p: nat)
    requires IsWord(w) && p < 64
    ensures Or(w, Bit(p)) == w[p := true]
  {
  }

  /** AND with `^(1 << p)` turns bit `p` off and leaves the other bits alone. */
  lemma AndNotBit(w: Word, p: nat)
    requires IsWord(w) && p < 64
    ensures And(w, Not(Bit(p))) == w[p := false]
  {
  }

  /** Setting a bit twice, or clearing it twice, is the same as doing it once. */
  lemma BitUpdatesIdempotent(w: Word, p: nat)
    requires IsWord(w) && p < 64
    ensures Or(Or(w, Bit(p)), Bit(p)) == Or(w, Bit(p))
    ensures And(And(w, Not(Bit(p))), Not(Bit(p))) == And(w, Not(Bit(p)))
  {
    OrBit(w, p);
    OrBit(Or(w, Bit(p)), p);
    AndNotBit(w, p);
    AndNotBit(And(w, Not(Bit(p))), p);
  }

  /** `wordOf`: the word that holds index `idx`, whose 64 slots cover it. */
  function WordOf(idx: nat): (q: nat)
    ensures 64 * q <= idx < 64 * q + 64
  {
    idx / 64
  }

  /** `wordPositionOf`: the position of index `idx` inside its word. */
  function WordPositionOf(idx: nat): (p: nat)
    ensures p < 64 && idx == 64 * WordOf(idx) + p
  {
    idx % 64
  }

  /** Index `idx` is the only one at its word and position. */
  lemma SlotDetermines(i: nat, j: nat)
    ensures WordOf(i) == WordOf(j) && WordPositionOf(i) == WordPositionOf(j) <==> i == j
  {
  }

  /** `math.Ceil(float64(capacity) / 64)`, computed on integers. */
  function WordsNeeded(capacity: nat): (n: nat)
    requires capacity > 0
    ensures n >= 1
    ensures capacity <= 64 * n < capacity + 64
  {
    (capacity + 63) / 64
  }

  // ---------------------------------------------------------------------
  // Sets of indices as sequences of flags
  // ---------------------------------------------------------------------

  /** The indices whose flag is on. */
  ghost function SetOf(flags: seq<bool>): set<nat> {
    set i: nat | i < |flags| && flags[i]
  }

  /** The number of flags that are on. */
  function CountTrue(flags: seq<bool>): (n: nat)
    ensures n <= |flags|
  {
    if |flags| == 0 then 0
    else CountTrue(flags[..|flags| - 1]) + (if flags[|flags| - 1] then 1 else 0)
  }

  lemma {:induction false} CountTrueIsCardinality(flags: seq<bool>)
    ensures |SetOf(flags)| == CountTrue(flags)
  {
    if |flags| > 0 {
      var n := |flags| - 1;
      var init := flags[..n];
      CountTrueIsCardinality(init);
      if flags[n] {
        assert SetOf(flags) == SetOf(init) + {n};
      } else {
        assert SetOf(flags) == SetOf(init);
      }
    }
  }

  lemma {:induction false} CountTrueAppend(xs: seq<bool>, ys: seq<bool>)
    ensures CountTrue(xs + ys) == CountTrue(xs) + CountTrue(ys)
  {
    if |ys| > 0 {
      var n := |ys| - 1;
      assert (xs + ys)[..|xs + ys| - 1] == xs + ys[..n];
      CountTrueAppend(xs, ys[..n]);
    } else {
      assert xs + ys == xs;
    }
  }

  /** Flag `k` of `flags`, or off past its end. */
  function FlagAt(flags: seq<bool>, k: nat): bool {
    k < |flags| && flags[k]
  }

  lemma SetOfUpdate(flags: seq<bool>, i: nat, on: bool)
    requires i < |flags|
    ensures SetOf(flags[i := on]) == if on then SetOf(flags) + {i} else SetOf(flags) - {i}
  {}

  lemma SetOfOr(xs: seq<bool>, ys: seq<bool>, zs: seq<bool>)
    requires |zs| == if |xs| >= |ys| then |xs| else |ys|
    requires forall k :: 0 <= k < |zs| ==> zs[k] == (FlagAt(xs, k) || FlagAt(ys, k))
    ensures SetOf(zs) == SetOf(xs) + SetOf(ys)
  {
    forall i: nat
      ensures i in SetOf(zs) <==> i in SetOf(xs) || i in SetOf(ys)
    {
      assert i < |zs| ==> zs[i] == (FlagAt(xs, i) || FlagAt(ys, i));
    }
  }

  lemma SetOfAnd(xs: seq<bool>, ys: seq<bool>, zs: seq<bool>)
    requires |zs| == if |xs| <= |ys| then |xs| else |ys|
    requires forall k :: 0 <= k < |zs| ==> zs[k] == (xs[k] && ys[k])
    ensures SetOf(zs) == SetOf(xs) * SetOf(ys)
  {
    forall i: nat
      ensures i in SetOf(zs) <==> i in SetOf(xs) && i in SetOf(ys)
    {
      assert i < |zs| ==> zs[i] == (xs[i] && ys[i]);
    }
  }

  // ---------------------------------------------------------------------
  // The flags that a sequence of words stands for
  // ---------------------------------------------------------------------

  /** The bits of all words, word after word. */
  function Unpack(ws: seq<Word>): (flags: seq<bool>)
    requires AllWords(ws)
    ensures |flags| == 64 * |ws|
  {
    if |ws| == 0 then [] else Unpack(ws[..|ws| - 1]) + ws[|ws| - 1]
  }

  /** Flag `i` is bit `i % 64` of word `i / 64`. */
  lemma {:induction false} UnpackAt(ws: seq<Word>, i: nat)
    requires AllWords(ws) && i < 64 * |ws|
    ensures Unpack(ws)[i] == ws[WordOf(i)][WordPositionOf(i)]
  {
    var n := |ws| - 1;
    if i < 64 * n {
      UnpackAt(ws[..n], i);
    } else {
      assert WordOf(i) == n && WordPositionOf(i) == i - 64 * n;
    }
  }

  /** The set the words stand for. */
  ghost function Members(ws: seq<Word>): set<nat>
    requires AllWords(ws)
  {
    SetOf(Unpack(ws))
  }

  lemma MembersAt(ws: seq<Word>, i: nat)
    requires AllWords(ws)
    ensures i in Members(ws) <==> i < 64 * |ws| && ws[WordOf(i)][WordPositionOf(i)]
  {
    if i < 64 * |ws| {
      UnpackAt(ws, i);
    }
  }

  /** `bits.OnesCount64`: the number of bits on in a word. */
  function OnesCount64(w: Word): (n: nat)
    requires IsWord(w)
    ensures n <= 64
  {
    CountTrue(w)
  }

  /** Population counts summed word by word. */
  function SumOnes(ws: seq<Word>): nat
    requires AllWords(ws)
  {
    if |ws| == 0 then 0 else SumOnes(ws[..|ws| - 1]) + OnesCount64(ws[|ws| - 1])
  }

  /** The number of members is the sum of the words' population counts. */
  lemma {:induction false} SumOnesCountsMembers(ws: seq<Word>)
    requires AllWords(ws)
    ensures |Members(ws)| == SumOnes(ws)
  {
    CountTrueIsCardinality(Unpack(ws));
    SumOnesIsCountTrue(ws);
  }

  lemma {:induction false} SumOnesIsCountTrue(ws: seq<Word>)
    requires AllWords(ws)
    ensures SumOnes(ws) == CountTrue(Unpack(ws))
  {
    if |ws| > 0 {
      var n := |ws| - 1;
      SumOnesIsCountTrue(ws[..n]);
      CountTrueAppend(Unpack(ws[..n]), ws[n]);
    }
  }

  /** All-zero words stand for no members. */
  lemma UnpackZero(ws: seq<Word>)
    requires forall k :: 0 <= k < |ws| ==> ws[k] == ZeroWord()
    ensures AllWords(ws) && Members(ws) == {}
  {
    forall i | 0 <= i < 64 * |ws|
      ensures !Unpack(ws)[i]
    {
      UnpackAt(ws, i);
    }
  }

  /** Changing bit `idx % 64` of word `idx / 64` changes flag `idx` and no other. */
  lemma UnpackUpdate(ws: seq<Word>, idx: nat, on: bool)
    requires AllWords(ws) && idx < 64 * |ws|
    ensures AllWords(ws[WordOf(idx) := ws[WordOf(idx)][WordPositionOf(idx) := on]])
    ensures Unpack(ws[WordOf(idx) := ws[WordOf(idx)][WordPositionOf(idx) := on]]) == Unpack(ws)[idx := on]
  {
    var ws' := ws[WordOf(idx) := ws[WordOf(idx)][WordPositionOf(idx) := on]];
    forall i | 0 <= i < 64 * |ws|
      ensures Unpack(ws')[i] == Unpack(ws)[idx := on][i]
    {
      UnpackAt(ws, i);
      UnpackAt(ws', i);
      SlotDetermines(i, idx);
    }
  }

  /** Word `k` of `ws`, or zero past its end (the zero-extension of Union). */
  function WordAt(ws: seq<Word>, k: nat): (w: Word)
    requires AllWords(ws)
    ensures IsWord(w)
  {
    if k < |ws| then ws[k] else ZeroWord()
  }

  /** Word-wise OR of the zero-extended operands is the union. */
  lemma UnionMembers(xs: seq<Word>, ys: seq<Word>, zs: seq<Word>)
    requires AllWords(xs) && AllWords(ys) && AllWords(zs)
    requires |zs| == if |xs| >= |ys| then |xs| else |ys|
    requires forall k :: 0 <= k < |zs| ==> zs[k] == Or(WordAt(xs, k), WordAt(ys, k))
    ensures Members(zs) == Members(xs) + Members(ys)
  {
    var fx, fy, fz := Unpack(xs), Unpack(ys), Unpack(zs);
    forall i | 0 <= i < |fz|
      ensures fz[i] == (FlagAt(fx, i) || FlagAt(fy, i))
    {
      UnpackAt(zs, i);
      if i < |fx| {
        UnpackAt(xs, i);
      }
      if i < |fy| {
        UnpackAt(ys, i);
      }
    }
    SetOfOr(fx, fy, fz);
  }

  /** Word-wise AND over the words both operands have is the intersection. */
  lemma IntersectionMembers(xs: seq<Word>, ys: seq<Word>, zs: seq<Word>)
    requires AllWords(xs) && AllWords(ys) && AllWords(zs)
    requires |zs| == if |xs| <= |ys| then |xs| else |ys|
    requires forall k :: 0 <= k < |zs| ==> zs[k] == And(xs[k], ys[k])
    ensures Members(zs) == Members(xs) * Members(ys)
  {
    var fx, fy, fz := Unpack(xs), Unpack(ys), Unpack(zs);
    forall i | 0 <= i < |fz|
      ensures fz[i] == (fx[i] && fy[i])
    {
      UnpackAt(zs, i);
      UnpackAt(xs, i);
      UnpackAt(ys, i);
    }
    SetOfAnd(fx, fy, fz);
  }

  // ---------------------------------------------------------------------
  // Jaccard similarity of two sets
  // ---------------------------------------------------------------------

  lemma {:induction false} SubsetCardinality(x: set<nat>, y: set<nat>)
    requires x <= y
    ensures |x| <= |y|
    ensures x < y ==> |x| < |y|
  {
    if x != {} {
      var e :| e in x;
      SubsetCardinality(x - {e}, y - {e});
    }
  }

  /** |A ∩ B| / |A ∪ B|, and 1 when both sets are empty. */
  function JaccardOf(a: set<nat>, b: set<nat>): (r: real)
    ensures 0.0 <= r <= 1.0
    ensures a + b == {} ==> r == 1.0
  {
    SubsetCardinality(a * b, a + b);
    if |a + b| == 0 then 1.0 else |a * b| as real / |a + b| as real
  }

  lemma JaccardSymmetric(a: set<nat>, b: set<nat>)
    ensures JaccardOf(a, b) == JaccardOf(b, a)
  {
    assert a + b == b + a && a * b == b * a;
  }

  /** A quotient of a non-negative number by a larger one is below 1. */
  lemma QuotientBelowOne(i: real, u: real)
    requires 0.0 <= i < u
    ensures i / u < 1.0
  {
    assert (i / u) * u == i;
  }

  /** A set is fully similar to itself, and to nothing else. */
  lemma JaccardOneIff(a: set<nat>, b: set<nat>)
    ensures JaccardOf(a, b) == 1.0 <==> a == b
  {
    if a == b {
      assert a * b == a + b;
    } else {
      var x :| x in (a - b) + (b - a);
      assert x in a + b && x !in a * b;
      SubsetCardinality(a * b, a + b);
      QuotientBelowOne(|a * b| as real, |a + b| as real);
    }
  }

  // ---------------------------------------------------------------------
  // The set itself
  // ---------------------------------------------------------------------

  class IndexSet {
    var words: array<Word>

    /** At least one word, each of 64 bits. */
    ghost predicate Valid()
      reads this, words
    {
      words.Length >= 1 && AllWords(words[..])
    }

    /** The indices the set holds. */
    ghost function Elements(): set<nat>
      reads this, words
      requires Valid()
    {
      Members(words[..])
    }

    /** The number of indices the set can hold. */
    function Capacity(): (c: nat)
      reads this
      ensures c % 64 == 0
    {
      64 * words.Length
    }

    /**
     * `validate`: whether an index can be stored (otherwise the Go code
     * panics), that is, whether its word is one of the set's words.
     */
    predicate Validate(idx: nat)
      reads this
      ensures Validate(idx) <==> WordOf(idx) < words.Length
    {
      idx < Capacity()
    }

    /** `NewIndexSet(capacity)`: ceil(capacity / 64) zeroed words. */
    constructor (capacity: int)
      requires capacity > 0
      ensures Valid() && fresh(words)
      ensures words.Length == WordsNeeded(capacity)
      ensures capacity <= Capacity() < capacity + 64
      ensures Elements() == {}
    {
      words := new Word[WordsNeeded(capacity)](_ => ZeroWord());
      new;
      UnpackZero(words[..]);
    }

    /** `Has`: the bit of `idx` is on exactly when `idx` is a member. */
    function Has(idx: nat): (r: bool)
      reads this, words
      requires Valid() && Validate(idx)
      ensures r <==> idx in Elements()
    {
      MembersAt(words[..], idx);
      Toggled(WordPositionOf(idx), words[WordOf(idx)])
    }

    method Place(idx: nat)
      requires Valid() && Validate(idx)
      modifies words
      ensures Valid()
      ensures Elements() == old(Elements()) + {idx}
      ensures words[WordOf(idx)] == Or(old(words[WordOf(idx)]), Bit(WordPositionOf(idx)))
      ensures forall k :: 0 <= k < words.Length && k != WordOf(idx) ==> words[k] == old(words[k])
    {
      var q, p := WordOf(idx), WordPositionOf(idx);
      OrBit(words[q], p);
      UnpackUpdate(words[..], idx, true);
      SetOfUpdate(Unpack(words[..]), idx, true);
      words[q] := Or(words[q], Bit(p));
    }

    method PlaceAll(elements: seq<nat>)
      requires Valid()
      requires forall k :: 0 <= k < |elements| ==> Validate(elements[k])
      modifies words
      ensures Valid()
      ensures Elements() == old(Elements()) + set k | 0 <= k < |elements| :: elements[k]
    {
      for n := 0 to |elements|
        invariant Valid()
        invariant Elements() == old(Elements()) + set k | 0 <= k < n :: elements[k]
      {
        Place(elements[n]);
        assert (set k | 0 <= k < n + 1 :: elements[k]) == (set k | 0 <= k < n :: elements[k]) + {elements[n]};
      }
    }

    method Remove(idx: nat)
      requires Valid() && Validate(idx)
      modifies words
      ensures Valid()
      ensures Elements() == old(Elements()) - {idx}
      ensures words[WordOf(idx)] == And(old(words[WordOf(idx)]), Not(Bit(WordPositionOf(idx))))
      ensures forall k :: 0 <= k < words.Length && k != WordOf(idx) ==> words[k] == old(words[k])
    {
      var q, p := WordOf(idx), WordPositionOf(idx);
      AndNotBit(words[q], p);
      UnpackUpdate(words[..], idx, false);
      SetOfUpdate(Unpack(words[..]), idx, false);
      words[q] := And(words[q], Not(Bit(p)));
    }

    method RemoveAll(elements: seq<nat>)
      requires Valid()
      requires forall k :: 0 <= k < |elements| ==> Validate(elements[k])
      modifies words
      ensures Valid()
      ensures Elements() == old(Elements()) - set k | 0 <= k < |elements| :: elements[k]
    {
      for n := 0 to |elements|
        invariant Valid()
        invariant Elements() == old(Elements()) - set k | 0 <= k < n :: elements[k]
      {
        Remove(elements[n]);
        assert (set k | 0 <= k < n + 1 :: elements[k]) == (set k | 0 <= k < n :: elements[k]) + {elements[n]};
      }
    }

    /** `HasAll` stops at the first non-member, so only the elements up to it must be in range. */
    ghost predicate HasAllInRange(elements: seq<nat>)
      reads this, words
      requires Valid()
    {
      forall k :: 0 <= k < |elements| && (forall j :: 0 <= j < k ==> elements[j] in Elements()) ==>
        Validate(elements[k])
    }

    /** `HasAny` stops at the first member, so only the elements up to it must be in range. */
    ghost predicate HasAnyInRange(elements: seq<nat>)
      reads this, words
      requires Valid()
    {
      forall k :: 0 <= k < |elements| && (forall j :: 0 <= j < k ==> elements[j] !in Elements()) ==>
        Validate(elements[k])
    }

    method HasAll(elements: seq<nat>) returns (r: bool)
      requires Valid() && HasAllInRange(elements)
      ensures r <==> forall k :: 0 <= k < |elements| ==> elements[k] in Elements()
    {
      for n := 0 to |elements|
        invariant forall j :: 0 <= j < n ==> elements[j] in Elements()
      {
        if !Has(elements[n]) {
          return false;
        }
      }
      return true;
    }

    method HasAny(elements: seq<nat>) returns (r: bool)
      requires Valid() && HasAnyInRange(elements)
      ensures r <==> exists k :: 0 <= k < |elements| && elements[k] in Elements()
    {
      for n := 0 to |elements|
        invariant forall j :: 0 <= j < n ==> elements[j] !in Elements()
      {
        if Has(elements[n]) {
          return true;
        }
      }
      return false;
    }

    method Count() returns (count: nat)
      requires Valid()
      ensures count == |Elements()|
      ensures count <= Capacity()
    {
      count := 0;
      for k := 0 to words.Length
        invariant count == SumOnes(words[..k])
      {
        count := count + OnesCount64(words[k]);
        assert words[..k + 1][..k] == words[..k];
      }
      assert words[..words.Length] == words[..];
      SumOnesCountsMembers(words[..]);
      CountTrueIsCardinality(Unpack(words[..]));
    }
  }

  /** A new set holding the members of either operand. */
  method Union(a: IndexSet, b: IndexSet) returns (c: IndexSet)
    requires a.Valid() && b.Valid()
    ensures fresh(c) && fresh(c.words) && c.Valid()
    ensures c.Capacity() == if a.Capacity() >= b.Capacity() then a.Capacity() else b.Capacity()
    ensures c.Elements() == a.Elements() + b.Elements()
  {
    var jointCapacity := if a.Capacity() >= b.Capacity() then a.Capacity() else b.Capacity();
    c := new IndexSet(jointCapacity);
    for i := 0 to c.words.Length
      invariant fresh(c.words) && c.words.Length == jointCapacity / 64
      invariant forall k :: 0 <= k < i ==> c.words[k] == Or(WordAt(a.words[..], k), WordAt(b.words[..], k))
    {
      var wordA, wordB := ZeroWord(), ZeroWord();
      if i < a.words.Length {
        wordA := a.words[i];
      }
      if i < b.words.Length {
        wordB := b.words[i];
      }
      c.words[i] := Or(wordA, wordB);
    }
    UnionMembers(a.words[..], b.words[..], c.words[..]);
  }

  /** A new set holding the members of both operands. */
  method Intersection(a: IndexSet, b: IndexSet) returns (c: IndexSet)
    requires a.Valid() && b.Valid()
    ensures fresh(c) && fresh(c.words) && c.Valid()
    ensures c.Capacity() == if a.Capacity() <= b.Capacity() then a.Capacity() else b.Capacity()
    ensures c.Elements() == a.Elements() * b.Elements()
  {
    var jointCapacity := if a.Capacity() <= b.Capacity() then a.Capacity() else b.Capacity();
    c := new IndexSet(jointCapacity);
    for i := 0 to c.words.Length
      invariant fresh(c.words) && c.words.Length == jointCapacity / 64
      invariant forall k :: 0 <= k < i ==> c.words[k] == And(a.words[k], b.words[k])
    {
      c.words[i] := And(a.words[i], b.words[i]);
    }
    IntersectionMembers(a.words[..], b.words[..], c.words[..]);
  }

  /** `Jaccard`: the similarity of two sets, 1 when both are empty. */
  method Jaccard(a: IndexSet, b: IndexSet) returns (r: real)
    requires a.Valid() && b.Valid()
    ensures r == JaccardOf(a.Elements(), b.Elements())
  {
    var inter := Intersection(a, b);
    var intersection := inter.Count();
    var uni := Union(a, b);
    var union := uni.Count();
    if union == 0 {
      return 1.0;
    }
    return intersection as real / union as real;
  }
}
