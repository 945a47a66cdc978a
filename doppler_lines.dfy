/** The Doppler-line bit mask: one bit per Doppler bin, packed into 32-bit
    words (bit 0 of word 0 is Doppler line 0). Stage-1 CFAR sets the bits of the
    Doppler lines on which it detected something; stage-2 CFAR then drains the
    set lines through a read cursor, in ascending order, each exactly once. */
module DopplerLines {
  import opened Common

  /** Bit `bit` of a 32-bit word, bit 0 being the least significant; stated
      one shift at a time (see BitOfIsShift for the single-shift form). */
  predicate BitOf(w: bv32, bit: nat)
    requires bit < 32
  {
    if bit == 0 then w & 1 == 1 else BitOf(w >> 1, bit - 1)
  }

  /** `0x1 << bit`: the word with only bit `bit` set. */
  function BitMask(bit: nat): bv32
    requires bit < 32
  {
    1 << (bit as bv5)
  }

  /** The word and bit a line index addresses: `index >> 5` and `index & 31`. */
  function WordOf(index: nat): nat { index / 32 }
  function BitIn(index: nat): (b: nat)
    ensures b < 32
  {
    index % 32
  }

  lemma ShiftCompose(w: bv32, s: bv5)
    requires s < 31
    ensures (w >> 1) >> s == w >> (s + 1)
  {
  }

  /** The recursive bit test is the C test `(w >> bit) & 0x1`. */
  lemma {:induction false} BitOfIsShift(w: bv32, bit: nat)
    requires bit < 32
    ensures BitOf(w, bit) == ((w >> (bit as bv5)) & 1 == 1)
  {
    if bit > 0 {
      BitOfIsShift(w >> 1, bit - 1);
      ShiftAmountSucc(bit - 1);
      ShiftCompose(w, (bit - 1) as bv5);
    }
  }

  lemma ShiftAmountSucc(k: nat)
    requires k < 31
    ensures (k as bv5) < 31 && (k as bv5) + 1 == (k + 1) as bv5
  {
  }

  lemma ShiftSetBit(w: bv32, b: bv5, c: bv5)
    ensures ((w | (1 << b)) >> c) & 1 == 1 <==> c == b || (w >> c) & 1 == 1
  {
  }

  lemma Bv5Injective(b: nat, c: nat)
    requires b < 32 && c < 32 && b as bv5 == c as bv5
    ensures b == c
  {
  }

  /** Or-ing in `0x1 << b` turns bit `b` on and leaves every other bit as it was. */
  lemma SetBitEffect(w: bv32, b: nat, c: nat)
    requires b < 32 && c < 32
    ensures BitOf(w | BitMask(b), c) == (c == b || BitOf(w, c))
  {
    var sb, sc := b as bv5, c as bv5;
    assert sb == sc <==> b == c by {
      if sb == sc { Bv5Injective(b, c); }
    }
    assert BitOf(w | BitMask(b), c) == (((w | (1 << sb)) >> sc) & 1 == 1) by {
      BitOfIsShift(w | BitMask(b), c);
    }
    assert BitOf(w, c) == ((w >> sc) & 1 == 1) by {
      BitOfIsShift(w, c);
    }
    assert ((w | (1 << sb)) >> sc) & 1 == 1 <==> sc == sb || (w >> sc) & 1 == 1 by {
      ShiftSetBit(w, sb, sc);
    }
  }

  lemma {:induction false} ZeroWordHasNoBits(c: nat)
    requires c < 32
    ensures !BitOf(0, c)
  {
    if c > 0 {
      assert (0 as bv32) >> 1 == 0;
      ZeroWordHasNoBits(c - 1);
    }
  }

  /** Line `i` is active in the words `words`. */
  ghost predicate IsLineIn(words: seq<bv32>, i: nat)
  {
    WordOf(i) < |words| && BitOf(words[WordOf(i)], BitIn(i))
  }

  /** The active lines below `n`, collected one index at a time. */
  ghost function LinesBelow(words: seq<bv32>, n: nat): set<nat>
  {
    if n == 0 then {}
    else LinesBelow(words, n - 1) + (if IsLineIn(words, n - 1) then {n - 1} else {})
  }

  lemma {:induction false} LinesBelowMember(words: seq<bv32>, n: nat, i: nat)
    ensures i in LinesBelow(words, n) <==> i < n && IsLineIn(words, i)
  {
    if n > 0 {
      LinesBelowMember(words, n - 1, i);
    }
  }

  /** The set of active lines held by `words`. */
  ghost function LinesIn(words: seq<bv32>): set<nat>
  {
    LinesBelow(words, 32 * |words|)
  }

  lemma LinesInMember(words: seq<bv32>, i: nat)
    ensures i in LinesIn(words) <==> IsLineIn(words, i)
  {
    LinesBelowMember(words, 32 * |words|, i);
  }

  /** Within the word that `index` addresses, or-ing in its bit turns on
      exactly line `index`. */
  lemma SetLineInSameWord(words: seq<bv32>, after: seq<bv32>, index: nat, i: nat)
    requires WordOf(index) < |words|
    requires after == words[WordOf(index) := words[WordOf(index)] | BitMask(BitIn(index))]
    requires WordOf(i) == WordOf(index)
    ensures IsLineIn(after, i) <==> IsLineIn(words, i) || i == index
  {
    var b, c := BitIn(index), BitIn(i);
    var v := words[WordOf(index)];
    assert after[WordOf(i)] == v | BitMask(b);
    assert BitOf(v | BitMask(b), c) == (c == b || BitOf(v, c)) by { SetBitEffect(v, b, c); }
    assert c == b <==> i == index;
    assert IsLineIn(after, i) == BitOf(v | BitMask(b), c);
    assert IsLineIn(words, i) == BitOf(v, c);
  }

  /** Or-ing bit `index & 31` into word `index >> 5` adds line `index` and no other. */
  lemma SetLineAddsExactlyIt(words: seq<bv32>, index: nat)
    requires WordOf(index) < |words|
    ensures LinesIn(words[WordOf(index) := words[WordOf(index)] | BitMask(BitIn(index))])
            == LinesIn(words) + {index}
  {
    var after := words[WordOf(index) := words[WordOf(index)] | BitMask(BitIn(index))];
    forall i: nat
      ensures i in LinesIn(after) <==> i in LinesIn(words) + {index}
    {
      LinesInMember(after, i);
      LinesInMember(words, i);
      if WordOf(i) == WordOf(index) {
        SetLineInSameWord(words, after, index, i);
      } else {
        SetLineInOtherWord(words, after, index, i);
      }
    }
  }

  /** Lines addressing another word are untouched by setting line `index`. */
  lemma SetLineInOtherWord(words: seq<bv32>, after: seq<bv32>, index: nat, i: nat)
    requires WordOf(index) < |words|
    requires after == words[WordOf(index) := words[WordOf(index)] | BitMask(BitIn(index))]
    requires WordOf(i) != WordOf(index)
    ensures IsLineIn(after, i) <==> IsLineIn(words, i)
  {
  }

  /** All-zero words hold no line. */
  lemma ZeroWordsNoLines(words: seq<bv32>)
    requires forall w :: 0 <= w < |words| ==> words[w] == 0
    ensures LinesIn(words) == {}
  {
    forall i: nat | i in LinesIn(words)
      ensures false
    {
      LinesInMember(words, i);
      ZeroWordHasNoBits(BitIn(i));
    }
  }

  /** The set of values listed in `s`. */
  ghost function Elements(s: seq<nat>): (e: set<nat>)
    ensures forall x :: x in e <==> x in s
  {
    set x | x in s
  }

  lemma ElementsSnoc(s: seq<nat>, k: nat)
    requires k < |s|
    ensures Elements(s[..k + 1]) == Elements(s[..k]) + {s[k]}
  {
    assert s[..k + 1] == s[..k] + [s[k]];
  }

  lemma MarkStep(initial: set<nat>, before: set<nat>, after: set<nat>, marked: set<nat>, x: nat)
    requires before == initial + marked
    requires after == before + {x}
    ensures after == initial + (marked + {x})
  {
  }

  lemma MissingElement(s: set<nat>, t: set<nat>)
    requires s <= t && |s| < |t|
    ensures exists x :: x in t && x !in s
  {
    var d := t - s;
    assert t == d + s;
    assert |d| > 0;
    var x :| x in d;
  }

  lemma SubsetSameSize(s: set<nat>, t: set<nat>)
    requires s <= t && |s| == |t|
    ensures s == t
  {
    assert t == (t - s) + s;
    assert |t - s| == 0;
  }

  /** Appending the smallest line at or after the cursor keeps the drained
      prefix ascending and equal to the lines below the new cursor. */
  lemma DrainStep(lines: set<nat>, seen: set<nat>, visited: seq<nat>, cursor: nat, v: nat)
    requires forall x :: x in seen <==> x in visited
    requires |seen| == |visited|
    requires forall a, b :: 0 <= a < b < |visited| ==> visited[a] < visited[b]
    requires forall a :: 0 <= a < |visited| ==> visited[a] < cursor
    requires forall i :: i in lines && i < cursor <==> i in seen
    requires v in lines && cursor <= v
    requires forall i :: i in lines && cursor <= i ==> v <= i
    ensures forall x :: x in seen + {v} <==> x in visited + [v]
    ensures |seen + {v}| == |visited + [v]|
    ensures forall a, b :: 0 <= a < b < |visited + [v]| ==> (visited + [v])[a] < (visited + [v])[b]
    ensures forall a :: 0 <= a < |visited + [v]| ==> (visited + [v])[a] < v + 1
    ensures forall i :: i in lines && i < v + 1 <==> i in seen + {v}
  {
    assert v !in seen;
  }

  class DopplerLineMask {
    /** dopplerLineMask: the words of the mask. */
    const mask: array<bv32>
    /** dopplerLineMaskLen: the number of words in use. */
    const maskLen: nat
    /** currentIndex: the read cursor of getDopplerLine. */
    var currentIndex: nat

    ghost predicate Valid()
    {
      maskLen == mask.Length && maskLen > 0
    }

    /** The number of line indices the mask can hold. */
    function Capacity(): nat
    {
      32 * maskLen
    }

    ghost predicate IsLine(i: nat)
      reads mask
      requires Valid()
    {
      IsLineIn(mask[..], i)
    }

    /** The abstract value of the mask: the set of active Doppler lines. */
    ghost function Lines(): set<nat>
      reads mask
      requires Valid()
    {
      LinesIn(mask[..])
    }

    /** The allocator reserves MAX(numDopplerBins >> 5, 1) words for the mask. */
    constructor (numDopplerBins: nat)
      ensures Valid() && fresh(mask)
      ensures maskLen == if numDopplerBins / 32 > 0 then numDopplerBins / 32 else 1
      ensures currentIndex == 0
    {
      var len := if numDopplerBins / 32 > 0 then numDopplerBins / 32 else 1;
      mask := new bv32[len];
      maskLen := len;
      currentIndex := 0;
    }

    /** OdsDemo_resetDopplerLines: clear every word and rewind the cursor. */
    method Reset()
      requires Valid()
      modifies mask, this`currentIndex
      ensures Valid()
      ensures forall w :: 0 <= w < maskLen ==> mask[w] == 0
      ensures Lines() == {}
      ensures currentIndex == 0
    {
      var w := 0;
      while w < maskLen
        invariant 0 <= w <= maskLen
        invariant forall v :: 0 <= v < w ==> mask[v] == 0
      {
        mask[w] := 0;
        w := w + 1;
      }
      currentIndex := 0;
      ZeroWordsNoLines(mask[..]);
    }

    /** OdsDemo_setDopplerLine: set bit `index & 31` of word `index >> 5`;
        every other bit and the cursor are left as they were. */
    method SetLine(index: nat)
      requires Valid()
      requires index < 0x1_0000 && WordOf(index) < maskLen
      modifies mask
      ensures Valid()
      ensures forall w :: 0 <= w < maskLen && w != WordOf(index) ==> mask[w] == old(mask[w])
      ensures Lines() == old(Lines()) + {index}
    {
      var word := WordOf(index);
      ghost var before := mask[..];
      mask[word] := mask[word] | BitMask(BitIn(index));
      assert mask[..] == before[word := mask[word]];
      SetLineAddsExactlyIt(before, index);
    }

    /** OdsDemo_isSetDopplerLine: whether line `index` is active. */
    method IsSetLine(index: nat) returns (stat: bool)
      requires Valid()
      requires index < 0x1_0000 && WordOf(index) < maskLen
      ensures stat <==> index in Lines()
    {
      var word := WordOf(index);
      stat := BitOf(mask[word], BitIn(index));
      LinesInMember(mask[..], index);
    }

    /** OdsDemo_getDopplerLine: the smallest active line at or after the
        cursor; the cursor moves just past it. If the scan runs off the last
        word the data path halts on an assertion, modelled as `None`. The first
        word read is the cursor's own, so the cursor must address a word. */
    method GetLine() returns (r: Option<nat>)
      requires Valid()
      requires currentIndex < Capacity()
      modifies this`currentIndex
      ensures Valid()
      ensures r.Some? ==> r.value in Lines() && old(currentIndex) <= r.value
      ensures r.Some? ==> forall i :: i in Lines() && old(currentIndex) <= i ==> r.value <= i
      ensures r.Some? ==> currentIndex == r.value + 1
      ensures r.None? <==> forall i :: i in Lines() ==> i < old(currentIndex)
      ensures r.None? ==> currentIndex == old(currentIndex)
    {
      var index := currentIndex;
      var word := WordOf(index);
      var bit: nat := index % 32;
      while !BitOf(mask[word], bit)
        invariant index == 32 * word + bit && bit < 32 && word < maskLen
        invariant old(currentIndex) <= index
        invariant forall i :: old(currentIndex) <= i < index ==> !IsLine(i)
        decreases Capacity() - index
      {
        index := index + 1;
        bit := bit + 1;
        if bit == 32 {
          word := word + 1;
          bit := 0;
          if word >= maskLen {
            forall i | i in Lines()
              ensures i < old(currentIndex)
            {
              LinesInMember(mask[..], i);
              assert IsLine(i);
            }
            return None;
          }
        }
      }
      LinesInMember(mask[..], index);
      forall i | i in Lines() && old(currentIndex) <= i
        ensures index <= i
      {
        LinesInMember(mask[..], i);
        assert IsLine(i);
      }
      currentIndex := index + 1;
      r := Some(index);
    }

    /** Stage-1 CFAR bookkeeping for one range line: every detected Doppler
        index that is not yet active is set, and the running count
        numDetObj1D grows by one per newly activated line, so that after a
        reset the count always equals the number of active lines. */
    method MarkDetections(detected: seq<nat>, numDetObj1D: nat) returns (count: nat)
      requires Valid()
      requires forall k :: 0 <= k < |detected| ==> detected[k] < 0x1_0000 && WordOf(detected[k]) < maskLen
      modifies mask
      ensures Valid()
      ensures Lines() == old(Lines()) + Elements(detected)
      ensures count + |old(Lines())| == numDetObj1D + |Lines()|
    {
      count := numDetObj1D;
      var k := 0;
      while k < |detected|
        invariant 0 <= k <= |detected|
        invariant Lines() == old(Lines()) + Elements(detected[..k])
        invariant count + |old(Lines())| == numDetObj1D + |Lines()|
      {
        var isSet := IsSetLine(detected[k]);
        ghost var before := Lines();
        if !isSet {
          SetLine(detected[k]);
          count := count + 1;
        }
        ElementsSnoc(detected, k);
        MarkStep(old(Lines()), before, Lines(), Elements(detected[..k]), detected[k]);
        k := k + 1;
      }
      assert detected[..k] == detected;
    }

    /** Stage-2 CFAR walk: numDetObj1D successive getDopplerLine calls from a
        rewound cursor. When the count is the number of active lines, no call
        overruns the mask, and the lines visited are exactly the active ones,
        in strictly ascending order, each once. */
    method DrainLines(numDetObj1D: nat) returns (visited: seq<nat>)
      requires Valid() && currentIndex == 0 && numDetObj1D == |Lines()|
      modifies this`currentIndex
      ensures Valid()
      ensures |visited| == numDetObj1D
      ensures forall a, b :: 0 <= a < b < |visited| ==> visited[a] < visited[b]
      ensures forall i :: i in Lines() <==> i in visited
    {
      ghost var lines := Lines();
      visited := [];
      ghost var seen: set<nat> := {};
      var k := 0;
      while k < numDetObj1D
        invariant 0 <= k <= numDetObj1D && |visited| == k
        invariant Lines() == lines
        invariant forall x :: x in seen <==> x in visited
        invariant |seen| == k
        invariant forall a, b :: 0 <= a < b < k ==> visited[a] < visited[b]
        invariant forall a :: 0 <= a < k ==> visited[a] < currentIndex
        invariant forall i :: i in lines && i < currentIndex <==> i in seen
      {
        MissingElement(seen, lines);
        ghost var j :| j in lines && j !in seen;
        LinesInMember(mask[..], j);
        assert currentIndex <= j < Capacity();
        ghost var cursor := currentIndex;
        var r := GetLine();
        assert j in Lines() && !(j < cursor);
        assert r.Some?;
        DrainStep(lines, seen, visited, cursor, r.value);
        visited := visited + [r.value];
        seen := seen + {r.value};
        k := k + 1;
      }
      SubsetSameSize(seen, lines);
    }
  }
}
