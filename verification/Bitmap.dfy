/** A fixed-size array of bits, packed eight to a word, and the finite set it stands for. */
module Bitmaps {
  const BITS_PER_WORD: nat := 8
  const WORD_ALLBITS: bv8 := 0xff

  /** A word with only bit `offset` set. */
  function Mask(offset: nat): bv8
    requires offset < BITS_PER_WORD
  {
    if offset == 0 then 1 else Mask(offset - 1) << 1
  }

  /** Whether bit `offset` of a word is set. */
  predicate Has(w: bv8, offset: nat)
    requires offset < BITS_PER_WORD
  {
    if offset == 0 then w & 1 != 0 else Has(w >> 1, offset - 1)
  }

  predicate BitSet(words: seq<bv8>, i: nat)
    requires i < BITS_PER_WORD * |words|
  {
    Has(words[i / BITS_PER_WORD], i % BITS_PER_WORD)
  }

  function NrWords(nbits: nat): nat {
    (nbits + BITS_PER_WORD - 1) / BITS_PER_WORD
  }

  /** The bits of the leftover part of the last word are all set, so that no search ever returns one. */
  ghost predicate TailMarked(words: seq<bv8>, nbits: nat) {
    && |words| == NrWords(nbits)
    && forall i: nat | nbits <= i < BITS_PER_WORD * |words| :: BitSet(words, i)
  }

  /** The set of marked bit numbers. */
  ghost function Marked(words: seq<bv8>, nbits: nat): (bits: set<nat>)
    requires nbits <= BITS_PER_WORD * |words|
    ensures forall i | i in bits :: i < nbits
  {
    set i: nat | i < nbits && BitSet(words, i)
  }

  lemma MaskValue(o: nat)
    requires o < BITS_PER_WORD
    ensures Mask(o) == (1 as bv8) << o == [1 as bv8, 2, 4, 8, 16, 32, 64, 128][o]
  {
    if o > 0 { MaskValue(o - 1); }
    if o == 0 {} else if o == 1 {} else if o == 2 {} else if o == 3 {}
    else if o == 4 {} else if o == 5 {} else if o == 6 {} else {}
  }

  lemma {:induction false} HasMask(w: bv8, o: nat)
    requires o < BITS_PER_WORD
    ensures Has(w, o) <==> w & Mask(o) != 0
  {
    MaskValue(o);
    if o > 0 {
      MaskValue(o - 1);
      HasMask(w >> 1, o - 1);
    }
  }

  lemma MaskArithmetic(w: bv8, o: nat, p: nat)
    requires o < BITS_PER_WORD && p < BITS_PER_WORD
    ensures (w | Mask(o)) & Mask(p) != 0 <==> p == o || w & Mask(p) != 0
    ensures (w & !Mask(o)) & Mask(p) != 0 <==> p != o && w & Mask(p) != 0
  {
    MaskValue(o);
    MaskValue(p);
  }

  /** Or-ing with a mask sets one bit and leaves the other seven. */
  lemma HasAfterOr(w: bv8, o: nat, p: nat)
    requires o < BITS_PER_WORD && p < BITS_PER_WORD
    ensures Has(w | Mask(o), p) <==> p == o || Has(w, p)
  {
    MaskArithmetic(w, o, p);
    HasMask(w, p);
    HasMask(w | Mask(o), p);
  }

  /** And-ing with the complement of a mask clears one bit and leaves the other seven. */
  lemma HasAfterAndNot(w: bv8, o: nat, p: nat)
    requires o < BITS_PER_WORD && p < BITS_PER_WORD
    ensures Has(w & !Mask(o), p) <==> p != o && Has(w, p)
  {
    MaskArithmetic(w, o, p);
    HasMask(w, p);
    HasMask(w & !Mask(o), p);
  }

  lemma FullWordHas(o: nat)
    requires o < BITS_PER_WORD
    ensures Has(WORD_ALLBITS, o)
  {
    MaskValue(o);
    HasMask(WORD_ALLBITS, o);
  }

  lemma HasMaskValue(w: bv8, o: nat)
    requires o < BITS_PER_WORD && Has(w, o)
    ensures w & [1 as bv8, 2, 4, 8, 16, 32, 64, 128][o] != 0
  {
    MaskValue(o);
    HasMask(w, o);
  }

  /** A word whose bits are all set is the all-ones word. */
  lemma FullWord(w: bv8)
    requires forall o: nat | o < BITS_PER_WORD :: Has(w, o)
    ensures w == WORD_ALLBITS
  {
    HasMaskValue(w, 0); HasMaskValue(w, 1); HasMaskValue(w, 2); HasMaskValue(w, 3);
    HasMaskValue(w, 4); HasMaskValue(w, 5); HasMaskValue(w, 6); HasMaskValue(w, 7);
  }

  function WithBit(words: seq<bv8>, n: nat): seq<bv8>
    requires n < BITS_PER_WORD * |words|
  {
    words[n / BITS_PER_WORD := words[n / BITS_PER_WORD] | Mask(n % BITS_PER_WORD)]
  }

  function WithoutBit(words: seq<bv8>, n: nat): seq<bv8>
    requires n < BITS_PER_WORD * |words|
  {
    words[n / BITS_PER_WORD := words[n / BITS_PER_WORD] & !Mask(n % BITS_PER_WORD)]
  }

  /** What setting bit n does to bit i of the array. */
  lemma BitWith(words: seq<bv8>, n: nat, i: nat)
    requires n < BITS_PER_WORD * |words| && i < BITS_PER_WORD * |words|
    ensures BitSet(WithBit(words, n), i) <==> i == n || BitSet(words, i)
  {
    if n / BITS_PER_WORD != i / BITS_PER_WORD {
      assert WithBit(words, n)[i / BITS_PER_WORD] == words[i / BITS_PER_WORD];
    } else {
      assert i == n <==> i % BITS_PER_WORD == n % BITS_PER_WORD;
      HasAfterOr(words[i / BITS_PER_WORD], n % BITS_PER_WORD, i % BITS_PER_WORD);
    }
  }

  /** What clearing bit n does to bit i of the array. */
  lemma BitWithout(words: seq<bv8>, n: nat, i: nat)
    requires n < BITS_PER_WORD * |words| && i < BITS_PER_WORD * |words|
    ensures BitSet(WithoutBit(words, n), i) <==> i != n && BitSet(words, i)
  {
    if n / BITS_PER_WORD != i / BITS_PER_WORD {
      assert WithoutBit(words, n)[i / BITS_PER_WORD] == words[i / BITS_PER_WORD];
    } else {
      assert i == n <==> i % BITS_PER_WORD == n % BITS_PER_WORD;
      HasAfterAndNot(words[i / BITS_PER_WORD], n % BITS_PER_WORD, i % BITS_PER_WORD);
    }
  }

  /** Setting bit n adds n to the marked set, clearing it removes n, and neither disturbs the tail. */
  lemma MarkedUpdate(words: seq<bv8>, nbits: nat, n: nat)
    requires TailMarked(words, nbits) && n < nbits
    ensures TailMarked(WithBit(words, n), nbits) && Marked(WithBit(words, n), nbits) == Marked(words, nbits) + {n}
    ensures TailMarked(WithoutBit(words, n), nbits) && Marked(WithoutBit(words, n), nbits) == Marked(words, nbits) - {n}
  {
    forall i: nat | i < BITS_PER_WORD * |words|
      ensures BitSet(WithBit(words, n), i) <==> i == n || BitSet(words, i)
      ensures BitSet(WithoutBit(words, n), i) <==> i != n && BitSet(words, i)
    {
      BitWith(words, n, i);
      BitWithout(words, n, i);
    }
  }

  /** The first clear bit, found in word ix at `offset`, lies below nbits, because the tail is marked. */
  lemma LowestClear(words: seq<bv8>, nbits: nat, ix: nat, offset: nat)
    requires TailMarked(words, nbits) && ix < |words| && offset < BITS_PER_WORD && !Has(words[ix], offset)
    requires forall i: nat | i < BITS_PER_WORD * ix :: BitSet(words, i)
    requires forall o: nat | o < offset :: Has(words[ix], o)
    ensures var n := ix * BITS_PER_WORD + offset; var words' := words[ix := words[ix] | Mask(offset)];
            && n < nbits && n !in Marked(words, nbits)
            && (forall i: nat | i < n :: i in Marked(words, nbits))
            && TailMarked(words', nbits) && Marked(words', nbits) == Marked(words, nbits) + {n}
  {
    var n := ix * BITS_PER_WORD + offset;
    assert n / BITS_PER_WORD == ix && n % BITS_PER_WORD == offset;
    hide Mask, Has;
    forall i: nat | i < n ensures BitSet(words, i) {
      if i >= BITS_PER_WORD * ix {
        assert i / BITS_PER_WORD == ix && i % BITS_PER_WORD < offset;
      }
    }
    assert !BitSet(words, n);
    MarkedUpdate(words, nbits, n);
  }

  lemma AllMarked(words: seq<bv8>, nbits: nat)
    requires TailMarked(words, nbits) && forall i: nat | i < BITS_PER_WORD * |words| :: BitSet(words, i)
    ensures forall i: nat | i < nbits :: i in Marked(words, nbits)
  {}

  lemma WordFull(words: seq<bv8>, ix: nat)
    requires ix < |words| && words[ix] == WORD_ALLBITS
    ensures forall i: nat | BITS_PER_WORD * ix <= i < BITS_PER_WORD * (ix + 1) :: BitSet(words, i)
  {
    forall i: nat | BITS_PER_WORD * ix <= i < BITS_PER_WORD * (ix + 1) ensures BitSet(words, i) {
      assert i / BITS_PER_WORD == ix;
      FullWordHas(i % BITS_PER_WORD);
    }
  }

  class Bitmap {
    const nbits: nat
    const v: array<bv8>

    ghost predicate Valid()
      reads v
    {
      TailMarked(v[..], nbits)
    }

    ghost function Bits(): set<nat>
      requires Valid()
      reads v
    {
      Marked(v[..], nbits)
    }

    constructor (nbits: nat)
      ensures Valid() && Bits() == {} && this.nbits == nbits && fresh(v)
    {
      var words := NrWords(nbits);
      var a := new bv8[words](_ => 0);
      this.nbits := nbits;
      this.v := a;
      new;
      forall o: nat | o < BITS_PER_WORD ensures !Has(0, o) { HasMask(0, o); }
      if nbits / BITS_PER_WORD < words {
        var ix := words - 1;
        var overbits := nbits - ix * BITS_PER_WORD;
        for j := overbits to BITS_PER_WORD
          invariant forall i: nat | i < BITS_PER_WORD * words :: BitSet(v[..], i) <==> nbits <= i < ix * BITS_PER_WORD + j
        {
          ghost var before := v[..];
          ghost var n := ix * BITS_PER_WORD + j;
          assert n / BITS_PER_WORD == ix && n % BITS_PER_WORD == j;
          v[ix] := v[ix] | Mask(j);
          assert v[..] == WithBit(before, n);
          forall i: nat | i < BITS_PER_WORD * words ensures BitSet(v[..], i) <==> i == n || BitSet(before, i) {
            BitWith(before, n, i);
          }
        }
      }
    }

    /** Overwrites all the words, as reading a freemap from disk does. */
    method Load(words: seq<bv8>)
      requires |words| == v.Length == nbits / BITS_PER_WORD && nbits % BITS_PER_WORD == 0
      modifies v
      ensures v[..] == words && Valid()
    {
      forall i | 0 <= i < v.Length {
        v[i] := words[i];
      }
      assert v[..] == words;
    }

    /** The inner loop of Alloc: the first clear bit of a word that has one, so that the loop never runs to its end. */
    static method FirstClear(w: bv8) returns (offset: nat)
      requires w != WORD_ALLBITS
      ensures offset < BITS_PER_WORD && !Has(w, offset)
      ensures forall o: nat | o < offset :: Has(w, o)
    {
      hide Mask, Has;
      for i := 0 to BITS_PER_WORD
        invariant forall o: nat | o < i :: Has(w, o)
      {
        HasMask(w, i);
        if w & Mask(i) == 0 {
          return i;
        }
      }
      FullWord(w);
      assert false;
    }

    /** Marks and returns the lowest clear bit; fails exactly when every bit is marked. */
    method Alloc() returns (index: int)
      requires Valid()
      modifies v
      ensures Valid()
      ensures index < 0 <==> (forall i: nat | i < nbits :: i in old(Bits()))
      ensures index < 0 ==> v[..] == old(v[..])
      ensures index >= 0 ==>
                && index < nbits
                && index !in old(Bits())
                && (forall i: nat | i < index :: i in old(Bits()))
                && Bits() == old(Bits()) + {index}
      ensures index >= 0 ==>
                forall i: nat | i < v.Length && i != index / BITS_PER_WORD :: v[i] == old(v[i])
    {
      hide Mask, Has, Marked, TailMarked;
      ghost var words := v[..];
      for ix := 0 to v.Length
        invariant v[..] == words
        invariant forall i: nat | i < BITS_PER_WORD * ix :: BitSet(words, i)
      {
        if v[ix] != WORD_ALLBITS {
          var offset := FirstClear(v[ix]);
          index := ix * BITS_PER_WORD + offset;
          LowestClear(words, nbits, ix, offset);
          v[ix] := v[ix] | Mask(offset);
          assert v[..] == words[ix := words[ix] | Mask(offset)] && index !in old(Bits());
          return;
        }
        WordFull(words, ix);
      }
      AllMarked(words, nbits);
      index := -1;
    }

    method Mark(index: nat)
      requires Valid()
      requires index < nbits && index !in Bits()
      modifies v
      ensures Valid() && Bits() == old(Bits()) + {index}
    {
      var ix, mask := index / BITS_PER_WORD, Mask(index % BITS_PER_WORD);
      MarkedUpdate(v[..], nbits, index);
      v[ix] := v[ix] | mask;
      assert v[..] == WithBit(old(v[..]), index);
    }

    method Unmark(index: nat)
      requires Valid()
      requires index < nbits && index in Bits()
      modifies v
      ensures Valid() && Bits() == old(Bits()) - {index}
      ensures forall i: nat | i < v.Length && i != index / BITS_PER_WORD :: v[i] == old(v[i])
    {
      var ix, mask := index / BITS_PER_WORD, Mask(index % BITS_PER_WORD);
      MarkedUpdate(v[..], nbits, index);
      v[ix] := v[ix] & !mask;
      assert v[..] == WithoutBit(old(v[..]), index);
    }

    method IsSet(index: nat) returns (b: bool)
      requires Valid() && index < nbits
      ensures b <==> index in Bits()
    {
      var ix, mask := index / BITS_PER_WORD, Mask(index % BITS_PER_WORD);
      HasMask(v[ix], index % BITS_PER_WORD);
      b := v[ix] & mask != 0;
    }

    method NrAllocated() returns (nr: nat)
      requires Valid()
      ensures nr == |Bits()|
    {
      nr := 0;
      ghost var seen: set<nat> := {};
      for i := 0 to nbits
        invariant seen == set j: nat | j < i && j in Bits()
        invariant nr == |seen|
      {
        var b := IsSet(i);
        if b {
          seen := seen + {i};
          nr := nr + 1;
        }
      }
      assert seen == Bits();
    }
  }
}
