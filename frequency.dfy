/** build_frequency_dict: how often each symbol occurs in the text. */
module Frequency {

  /** The distinct symbols of a text. */
  function Alphabet(text: seq<char>): set<char> {
    set c | c in text
  }

  /** The sum of all counts of a frequency table. */
  ghost function MapSum(m: map<char, nat>): nat
    decreases |m|
  {
    if m == map[] then 0
    else
      var k :| k in m;
      m[k] + MapSum(m - {k})
  }

  /** Any key can be taken out first: the sum does not depend on the order. */
  lemma {:induction false} MapSumRemove(m: map<char, nat>, k: char)
    requires k in m
    ensures MapSum(m) == m[k] + MapSum(m - {k})
    decreases |m|
  {
    var j :| j in m && MapSum(m) == m[j] + MapSum(m - {j});
    if j != k {
      var mj, mk := m - {j}, m - {k};
      assert |mj| == |m| - 1 && |mk| == |m| - 1;
      MapSumRemove(mj, k);
      MapSumRemove(mk, j);
      assert mj - {k} == mk - {j};
    }
  }

  /** Setting one count changes the sum by exactly that count's difference. */
  lemma MapSumUpdate(m: map<char, nat>, k: char, v: nat)
    ensures MapSum(m[k := v]) == MapSum(m) + v - (if k in m then m[k] else 0)
  {
    MapSumRemove(m[k := v], k);
    assert m[k := v] - {k} == m - {k};
    if k in m {
      MapSumRemove(m, k);
    } else {
      assert m - {k} == m;
    }
  }

  /**
   * The loop of build_frequency_dict over a defaultdict(int): a missing key
   * reads as 0 before it is incremented.
   */
  method BuildFrequencyDict(text: seq<char>) returns (freq: map<char, nat>)
    ensures freq.Keys == Alphabet(text)
    ensures forall c :: c in freq ==> freq[c] == multiset(text)[c] && freq[c] > 0
    ensures MapSum(freq) == |text|
  {
    freq := map[];
    for i := 0 to |text|
      invariant freq.Keys == Alphabet(text[..i])
      invariant forall c :: c in freq ==> freq[c] == multiset(text[..i])[c]
      invariant MapSum(freq) == i
    {
      var c := text[i];
      var count := if c in freq then freq[c] else 0;
      MapSumUpdate(freq, c, count + 1);
      assert text[..i + 1] == text[..i] + [c];
      freq := freq[c := count + 1];
    }
    assert text[..|text|] == text;
  }
}
