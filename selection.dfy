/** Order-preserving selection: the positions a scan over a candidate list
    keeps, and the truncation of an output list to the capacity of the buffer
    it is written into. Both peak-grouping policies emit their objects this
    way: scanning the candidates in list order, appending each kept one, and
    stopping once the output buffer is full. */
module Selection {

  /** The positions whose flag is set, in ascending order. */
  function KeptIndices(keep: seq<bool>): (ks: seq<nat>)
    ensures |ks| <= |keep|
    ensures forall t :: 0 <= t < |ks| ==> ks[t] < |keep| && keep[ks[t]]
    decreases |keep|
  {
    if |keep| == 0 then []
    else
      var last := |keep| - 1;
      KeptIndices(keep[..last]) + (if keep[last] then [last] else [])
  }

  /** The kept positions ascend strictly, and every flagged position is among them. */
  lemma {:induction false} KeptIndicesComplete(keep: seq<bool>)
    ensures forall t, u :: 0 <= t < u < |KeptIndices(keep)| ==> KeptIndices(keep)[t] < KeptIndices(keep)[u]
    ensures forall i :: 0 <= i < |keep| && keep[i] ==> i in KeptIndices(keep)
    decreases |keep|
  {
    if |keep| > 0 {
      var last := |keep| - 1;
      KeptIndicesComplete(keep[..last]);
      forall i | 0 <= i < last && keep[i]
        ensures i in KeptIndices(keep)
      {
        assert keep[..last][i];
      }
    }
  }

  /** Scanning further only appends: the positions kept among the first j
      candidates are a prefix of those kept among all of them. */
  lemma {:induction false} KeptIndicesPrefix(keep: seq<bool>, j: nat)
    requires j <= |keep|
    ensures KeptIndices(keep[..j]) <= KeptIndices(keep)
    decreases |keep| - j
  {
    if j < |keep| {
      var last := |keep| - 1;
      assert keep[..last][..j] == keep[..j];
      KeptIndicesPrefix(keep[..last], j);
    } else {
      assert keep[..j] == keep;
    }
  }

  /** One more candidate: it is appended exactly when it is kept. */
  lemma KeptIndicesSnoc(keep: seq<bool>, j: nat)
    requires j < |keep|
    ensures KeptIndices(keep[..j + 1]) == KeptIndices(keep[..j]) + (if keep[j] then [j] else [])
  {
    assert keep[..j + 1][..j] == keep[..j];
  }

  /** The first `cap` elements (all of them when there are fewer). */
  function Take<T>(s: seq<T>, cap: nat): (r: seq<T>)
    ensures |r| <= cap && r <= s
    ensures |s| <= cap ==> r == s
    ensures |s| > cap ==> |r| == cap
  {
    if |s| <= cap then s else s[..cap]
  }

  /** Once `cap` elements have been produced, further candidates do not
      change the truncated output. */
  lemma TakeOfExtension<T>(prefix: seq<T>, s: seq<T>, cap: nat)
    requires prefix <= s && |prefix| == cap
    ensures Take(s, cap) == prefix
  {
  }
}
