/** Fixed-size bitsets over an array of machine words. */
module Bitset {
  import opened Wrappers
  import opened Bits

  /** Position `pos` of a bitset with `width` bits per word. */
  predicate CheckBit(words: seq<nat>, width: nat, pos: nat)
    requires width > 0 && pos < |words| * width
  {
    InWord(|words|, width, pos);
    Bit(words[pos / width], pos % width)
  }

  lemma InWord(count: nat, width: nat, pos: nat)
    requires width > 0 && pos < count * width
    ensures pos / width < count && pos == pos / width * width + pos % width
  {
    if pos / width >= count {
      assert pos / width * width >= count * width by {
        MulMonotone(count, pos / width, width);
      }
    }
  }

  lemma MulMonotone(a: nat, b: nat, c: nat)
    requires a <= b
    ensures a * c <= b * c
  {
  }

  /** A position is put together from its word and its bit in only one way. */
  lemma Position(word: nat, width: nat, bit: nat)
    requires bit < width
    ensures (word * width + bit) / width == word && (word * width + bit) % width == bit
  {
    var pos := word * width + bit;
    var q := pos / width;
    assert q * width + pos % width == pos;
    if q < word {
      MulMonotone(q + 1, word, width);
    } else if q > word {
      MulMonotone(word + 1, q, width);
    }
  }

  ghost predicate WordsOk(words: seq<nat>, width: nat) {
    forall i :: 0 <= i < |words| ==> words[i] < Pow2(width)
  }

  /** The positions of a bitset. */
  ghost function Ones(words: seq<nat>, width: nat): set<nat>
    requires width > 0
  {
    set pos | 0 <= pos < |words| * width && CheckBit(words, width, pos)
  }

  /** The positions of one word. */
  lemma AtWord(words: seq<nat>, width: nat, word: nat, bit: nat)
    requires word < |words| && bit < width
    ensures word * width + bit < |words| * width
    ensures CheckBit(words, width, word * width + bit) <==> Bit(words[word], bit)
  {
    Position(word, width, bit);
    MulMonotone(word + 1, |words|, width);
  }

  /** One word written: the positions of that word follow its bits, the others stay. */
  lemma WordWritten(words: seq<nat>, width: nat, word: nat, w: nat, pos: nat)
    requires width > 0 && word < |words| && pos < |words| * width
    ensures CheckBit(words[word := w], width, pos) <==>
            if pos / width == word then Bit(w, pos % width) else CheckBit(words, width, pos)
  {
    InWord(|words|, width, pos);
  }

  class Bitset {
    const bitset: array<nat>
    const width: nat

    ghost predicate Valid()
      reads this, bitset
    {
      width > 0 && WordsOk(bitset[..], width)
    }

    /** The positions that are set. */
    ghost function Contents(): set<nat>
      requires width > 0
      reads this, bitset
    {
      Ones(bitset[..], width)
    }

    function Capacity(): nat {
      bitset.Length * width
    }

    constructor (count: nat, width: nat)
      requires width > 0
      ensures Valid() && Contents() == {} && Capacity() == count * width && fresh(bitset)
    {
      this.width := width;
      bitset := new nat[count](_ => 0);
      new;
      forall pos: nat | pos < count * width
        ensures !CheckBit(bitset[..], width, pos)
      {
        InWord(count, width, pos);
        ZeroBits(pos % width);
      }
    }

    method Set(pos: nat)
      requires Valid() && pos < Capacity()
      modifies bitset
      ensures Valid() && Contents() == old(Contents()) + {pos}
    {
      hide Bit, Or, Pow2;
      InWord(bitset.Length, width, pos);
      ghost var words := bitset[..];
      var word, shift := pos / width, Pow2(pos % width);
      var w := Or(bitset[word], shift);
      Pow2Below(pos % width, width);
      OrBound(words[word], shift, width);
      bitset[word] := w;
      assert bitset[..] == words[word := w];
      forall q: nat | q < Capacity()
        ensures CheckBit(bitset[..], width, q) <==> CheckBit(words, width, q) || q == pos
      {
        WordWritten(words, width, word, w, q);
        InWord(bitset.Length, width, q);
        OrBits(words[word], shift, q % width);
        Pow2Bits(pos % width, q % width);
      }
    }

    method Unset(pos: nat)
      requires Valid() && pos < Capacity()
      modifies bitset
      ensures Valid() && Contents() == old(Contents()) - {pos}
    {
      hide Bit, And, Not, Pow2;
      InWord(bitset.Length, width, pos);
      ghost var words := bitset[..];
      var word, shift := pos / width, Pow2(pos % width);
      var w := And(bitset[word], Not(shift, width));
      AndBound(words[word], Not(shift, width), width);
      bitset[word] := w;
      assert bitset[..] == words[word := w];
      forall q: nat | q < Capacity()
        ensures CheckBit(bitset[..], width, q) <==> CheckBit(words, width, q) && q != pos
      {
        WordWritten(words, width, word, w, q);
        InWord(bitset.Length, width, q);
        AndBits(words[word], Not(shift, width), q % width);
        NotBits(shift, width, q % width);
        Pow2Bits(pos % width, q % width);
      }
    }

    method Check(pos: nat) returns (r: bool)
      requires Valid() && pos < Capacity()
      ensures r <==> pos in Contents()
    {
      InWord(bitset.Length, width, pos);
      var masked := And(bitset[pos / width], Pow2(pos % width));
      r := masked != 0;
      MaskOne(bitset[pos / width], pos % width);
    }

    method Clear()
      requires Valid()
      modifies bitset
      ensures Valid() && Contents() == {}
    {
      for i := 0 to bitset.Length
        invariant forall j :: 0 <= j < i ==> bitset[j] == 0
      {
        bitset[i] := 0;
      }
      forall pos: nat | pos < Capacity()
        ensures !CheckBit(bitset[..], width, pos)
      {
        InWord(bitset.Length, width, pos);
        ZeroBits(pos % width);
      }
    }

    /** The smallest position that is not set. */
    method FirstEmpty() returns (r: Option<nat>)
      requires Valid()
      ensures r.Some? ==> r.value < Capacity() && r.value !in Contents()
      ensures r.Some? ==> forall q :: 0 <= q < r.value ==> q in Contents()
      ensures r.None? ==> forall q :: 0 <= q < Capacity() ==> q in Contents()
    {
      for i := 0 to bitset.Length
        invariant forall q: nat :: q < i * width ==> q in Contents()
      {
        hide Bit, Pow2, Ones;
        var w := bitset[i];
        TrailingOnesBound(w, width);
        MulMonotone(i + 1, bitset.Length, width);
        FullWord(bitset[..], width, i);
        if w == 0 {
          ZeroWord(bitset[..], width, i);
          return Some(i * width);
        }
        if w != Pow2(width) - 1 {
          return Some(i * width + TrailingOnes(w));
        }
      }
      r := None;
    }

    /** The smallest position that is set. */
    method FirstSet() returns (r: Option<nat>)
      requires Valid()
      ensures r.Some? ==> r.value in Contents() && forall q :: 0 <= q < r.value ==> q !in Contents()
      ensures r.None? ==> Contents() == {}
    {
      for i := 0 to bitset.Length
        invariant forall q: nat :: q < i * width ==> q !in Contents()
      {
        hide Bit, Pow2, Ones;
        var w := bitset[i];
        if w != 0 {
          TrailingZerosBound(w, width);
          LowestInWord(bitset[..], width, i);
          return Some(i * width + TrailingZeros(w));
        }
        ZeroWord(bitset[..], width, i);
      }
      r := None;
    }

    /** The largest position that is set. */
    method Last() returns (r: Option<nat>)
      requires Valid()
      ensures r.Some? ==> r.value in Contents() && forall q :: q in Contents() ==> q <= r.value
      ensures r.None? ==> Contents() == {}
    {
      var i := bitset.Length;
      while i > 0
        invariant 0 <= i <= bitset.Length
        invariant forall q :: q in Contents() ==> q < i * width
      {
        hide Bit, Pow2, Ones;
        i := i - 1;
        var w := bitset[i];
        if w != 0 {
          LeadingZerosBits(w, width);
          HighestInWord(bitset[..], width, i);
          return Some(i * width + (width - 1) - LeadingZeros(w, width));
        }
        ZeroWord(bitset[..], width, i);
      }
      r := None;
    }
  }

  lemma MaskOne(w: nat, bit: nat)
    ensures And(w, Pow2(bit)) != 0 <==> Bit(w, bit)
  {
    var masked := And(w, Pow2(bit));
    AndBits(w, Pow2(bit), bit);
    Pow2Bits(bit, bit);
    if masked != 0 {
      var low := TrailingZeros(masked);
      AndBits(w, Pow2(bit), low);
      Pow2Bits(bit, low);
    } else {
      ZeroBits(bit);
    }
  }

  lemma ZeroWord(words: seq<nat>, width: nat, i: nat)
    requires width > 0 && i < |words| && words[i] == 0
    ensures i * width < (i + 1) * width <= |words| * width
    ensures forall q :: i * width <= q < (i + 1) * width ==> q !in Ones(words, width)
  {
    MulMonotone(i + 1, |words|, width);
    forall q | i * width <= q < (i + 1) * width
      ensures !CheckBit(words, width, q)
    {
      ZeroBits(q - i * width);
      AtWord(words, width, i, q - i * width);
    }
  }

  lemma FullWord(words: seq<nat>, width: nat, i: nat)
    requires width > 0 && i < |words| && words[i] < Pow2(width)
    ensures (i + 1) * width <= |words| * width
    ensures var low := TrailingOnes(words[i]);
            && (forall q :: i * width <= q < i * width + low && q < (i + 1) * width ==> q in Ones(words, width))
            && (low < width ==> i * width + low < |words| * width && i * width + low !in Ones(words, width))
  {
    hide Bit, Pow2, CheckBit;
    MulMonotone(i + 1, |words|, width);
    var low, base := TrailingOnes(words[i]), i * width;
    assert base + width == (i + 1) * width;
    forall q | base <= q < base + low && q < base + width
      ensures q < |words| * width && CheckBit(words, width, q)
    {
      AtWord(words, width, i, q - base);
    }
    if low < width {
      AtWord(words, width, i, low);
    }
  }

  lemma LowestInWord(words: seq<nat>, width: nat, i: nat)
    requires i < |words| && words[i] != 0 && TrailingZeros(words[i]) < width
    ensures var low := TrailingZeros(words[i]);
            && i * width + low in Ones(words, width)
            && forall q :: i * width <= q < i * width + low ==> q !in Ones(words, width)
  {
    var low := TrailingZeros(words[i]);
    AtWord(words, width, i, low);
    forall q | i * width <= q < i * width + low
      ensures q < |words| * width && !CheckBit(words, width, q)
    {
      AtWord(words, width, i, q - i * width);
    }
  }

  lemma HighestInWord(words: seq<nat>, width: nat, i: nat)
    requires width > 0 && i < |words| && 0 < words[i] < Pow2(width)
    ensures LeadingZeros(words[i], width) < width
    ensures var top := i * width + (width - 1) - LeadingZeros(words[i], width);
            && top in Ones(words, width)
            && forall q :: top < q < (i + 1) * width ==> q !in Ones(words, width)
  {
    LeadingZerosBits(words[i], width);
    var bit := width - 1 - LeadingZeros(words[i], width);
    AtWord(words, width, i, bit);
    forall q | i * width + bit < q < (i + 1) * width
      ensures q < |words| * width && !CheckBit(words, width, q)
    {
      AtWord(words, width, i, q - i * width);
    }
  }

  // ----- Listing the positions -----

  /** The set bits of one word, from the lowest on. */
  ghost function WordOnes(w: nat, base: nat): seq<nat> {
    if w == 0 then []
    else (if w % 2 == 1 then [base] else []) + WordOnes(w / 2, base + 1)
  }

  ghost function OnesFrom(words: seq<nat>, width: nat, word: nat): seq<nat>
    requires word <= |words|
    decreases |words| - word
  {
    if word == |words| then []
    else WordOnes(words[word], word * width) + OnesFrom(words, width, word + 1)
  }

  ghost predicate Ascending(s: seq<nat>) {
    forall i, j :: 0 <= i < j < |s| ==> s[i] < s[j]
  }

  /** Taking the lowest one and clearing it leaves the others. */
  lemma {:induction false} PopLowest(w: nat, base: nat)
    requires w > 0
    ensures WordOnes(w, base) == [base + TrailingZeros(w)] + WordOnes(And(w, w - 1), base)
  {
    if w % 2 == 1 {
      AndSelf(w / 2);
      assert (w - 1) / 2 == w / 2 && And(w, w - 1) == w - 1;
    } else {
      PopLowest(w / 2, base + 1);
      assert (w - 1) / 2 == w / 2 - 1;
      assert And(w, w - 1) == 2 * And(w / 2, w / 2 - 1);
    }
  }

  lemma {:induction false} WordOnesIn(w: nat, base: nat, p: nat)
    ensures p in WordOnes(w, base) <==> base <= p && Bit(w, p - base)
  {
    if w == 0 {
      if base <= p {
        ZeroBits(p - base);
      }
    } else {
      WordOnesIn(w / 2, base + 1, p);
    }
  }

  lemma {:induction false} WordOnesAscending(w: nat, base: nat)
    ensures Ascending(WordOnes(w, base))
  {
    if w > 0 {
      var rest := WordOnes(w / 2, base + 1);
      WordOnesAscending(w / 2, base + 1);
      forall i | 0 <= i < |rest|
        ensures base < rest[i]
      {
        WordOnesIn(w / 2, base + 1, rest[i]);
      }
    }
  }

  /** All positions are listed, each once, in ascending order. */
  lemma {:induction false} OnesListed(words: seq<nat>, width: nat, word: nat)
    requires width > 0 && WordsOk(words, width) && word <= |words|
    ensures Ascending(OnesFrom(words, width, word))
    ensures forall p :: p in OnesFrom(words, width, word) <==> p in Ones(words, width) && p >= word * width
    decreases |words| - word
  {
    hide Bit, Pow2, WordOnes;
    if word == |words| {
      forall p | p in Ones(words, width)
        ensures p < word * width
      {
      }
    } else {
      var here, rest := WordOnes(words[word], word * width), OnesFrom(words, width, word + 1);
      WordOnesAscending(words[word], word * width);
      OnesListed(words, width, word + 1);
      assert (word + 1) * width == word * width + width;
      forall p: nat
        ensures p in here <==> p in Ones(words, width) && word * width <= p < (word + 1) * width
      {
        WordOnesIn(words[word], word * width, p);
        if p in here && p - word * width >= width {
          HighBits(words[word], width, p - word * width);
        }
        if word * width <= p < (word + 1) * width {
          AtWord(words, width, word, p - word * width);
        }
      }
      forall i, j | 0 <= i < |here| && 0 <= j < |rest|
        ensures here[i] < rest[j]
      {
        assert here[i] in here && rest[j] in rest;
      }
    }
  }

  /** Works on a copy of the words; the current word loses its lowest one at each step. */
  class OnesIter {
    const bitset: seq<nat>
    const width: nat
    var wordIdx: nat
    var currentWord: nat

    ghost predicate Valid()
      reads this
    {
      && width > 0 && WordsOk(bitset, width)
      && wordIdx <= |bitset| && (wordIdx == 0 ==> currentWord == 0)
    }

    ghost function Remaining(): seq<nat>
      requires Valid()
      reads this
    {
      (if currentWord == 0 then [] else WordOnes(currentWord, (wordIdx - 1) * width)) + OnesFrom(bitset, width, wordIdx)
    }

    constructor (source: Bitset)
      requires source.Valid()
      ensures Valid() && Ascending(Remaining())
      ensures forall p :: p in Remaining() <==> p in source.Contents()
    {
      bitset, width := source.bitset[..], source.width;
      wordIdx, currentWord := 0, 0;
      new;
      OnesListed(bitset, width, 0);
    }

    method Next() returns (r: Option<nat>)
      requires Valid()
      modifies this
      ensures Valid()
      ensures if r.Some? then old(Remaining()) == [r.value] + Remaining()
              else old(Remaining()) == [] && Remaining() == []
    {
      hide Pow2, WordOnes, OnesFrom;
      while currentWord == 0
        invariant Valid() && Remaining() == old(Remaining())
        decreases |bitset| - wordIdx
      {
        FromWord(bitset, width, wordIdx);
        if wordIdx == |bitset| {
          return None;
        }
        currentWord := bitset[wordIdx];
        wordIdx := wordIdx + 1;
      }
      var position := PopBit();
      r := Some(position);
    }

    /** Takes the lowest one out of the current word. */
    method PopBit() returns (position: nat)
      requires Valid() && currentWord != 0
      modifies `currentWord
      ensures Valid() && old(Remaining()) == [position] + Remaining()
    {
      hide Pow2, WordOnes, OnesFrom, WordsOk, And, TrailingZeros, Bit;
      var base := (wordIdx - 1) * width;
      position := base + TrailingZeros(currentWord);
      PopLowest(currentWord, base);
      NoOnes(base);
      ghost var rest := OnesFrom(bitset, width, wordIdx);
      ghost var cleared := WordOnes(And(currentWord, currentWord - 1), base);
      assert [position] + cleared + rest == [position] + (cleared + rest);
      currentWord := And(currentWord, currentWord - 1);
    }
  }

  lemma FromWord(words: seq<nat>, width: nat, word: nat)
    requires word <= |words|
    ensures word == |words| ==> OnesFrom(words, width, word) == []
    ensures word < |words| ==>
              OnesFrom(words, width, word) ==
              (if words[word] == 0 then [] else WordOnes(words[word], word * width)) + OnesFrom(words, width, word + 1)
  {
    hide Bit;
  }

  /** Runs the iterator to its end: exactly the positions of the set, ascending. */
  method Positions(source: Bitset) returns (ones: seq<nat>)
    requires source.Valid()
    ensures Ascending(ones) && forall p :: p in ones <==> p in source.Contents()
  {
    hide OnesFrom, WordOnes, Ones;
    var iter := new OnesIter(source);
    ghost var all := iter.Remaining();
    ones := [];
    while true
      invariant fresh(iter) && iter.Valid() && ones + iter.Remaining() == all
      decreases |iter.Remaining()|
    {
      var next := iter.Next();
      if next.None? {
        assert ones + [] == ones;
        return;
      }
      ones := ones + [next.value];
    }
  }

  lemma NoOnes(base: nat)
    ensures WordOnes(0, base) == []
  {
  }
}
