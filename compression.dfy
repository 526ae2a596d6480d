/** The exponent notation of the factoriser's output: repeated tokens are counted, in the
    order in which each token first appears, and a token seen k > 1 times is written
    "token^k". The source keeps the counts in a JavaScript Map, whose iteration order is
    the order of first insertion; here that Map is the pair of its key sequence and its
    counts. */
module Compression {
  import opened Display

  /** The distinct elements of s, in order of first occurrence. */
  function Distinct(s: seq<string>): (r: seq<string>)
    ensures forall x :: x in r <==> x in s
  {
    if s == [] then []
    else
      var d := Distinct(s[..|s| - 1]);
      if s[|s| - 1] in d then d else d + [s[|s| - 1]]
  }

  /** The position of the first occurrence of x in s. */
  function FirstIndex(s: seq<string>, x: string): (k: nat)
    requires x in s
    ensures k < |s| && s[k] == x && forall j :: 0 <= j < k ==> s[j] != x
  {
    if s[0] == x then 0 else 1 + FirstIndex(s[1..], x)
  }

  /** A token with its exponent: the bare token for a single occurrence, "token^k"
      otherwise. */
  function Power(t: string, k: nat): (r: string)
    ensures r == t <==> k == 1
    ensures |t| <= |r| && r[..|t|] == t
  {
    if k == 1 then t else t + "^" + NatToString(k)
  }

  /** What the compression produces: each distinct token, in order of first occurrence,
      with its number of occurrences as exponent. */
  function Compressed(factors: seq<string>): (r: seq<string>)
    ensures |r| == |Distinct(factors)|
  {
    var d := Distinct(factors);
    seq(|d|, j requires 0 <= j < |d| => Power(d[j], multiset(factors)[d[j]]))
  }

  /** The state of the source's Map after counting prefix: its keys in insertion order
      are the distinct tokens of prefix, and each maps to its number of occurrences. */
  ghost predicate Counted(keys: seq<string>, count: map<string, nat>, prefix: seq<string>)
  {
    keys == Distinct(prefix) &&
    (forall t :: t in count <==> t in keys) &&
    (forall t :: t in count ==> count[t] == multiset(prefix)[t])
  }

  /** Counting one more token: a new key is inserted at the end, an existing one keeps its
      place, and the count of the token goes up by one. */
  lemma CountedStep(keys: seq<string>, count: map<string, nat>, prefix: seq<string>, x: string)
    requires Counted(keys, count, prefix)
    ensures Counted(if x in count then keys else keys + [x],
                    count[x := (if x in count then count[x] else 0) + 1], prefix + [x])
  {
    assert (prefix + [x])[..|prefix|] == prefix;
    assert multiset(prefix + [x]) == multiset(prefix) + multiset{x};
  }

  /** Counting the token at index i, whether it is a new key or not, extends the count of
      factors[..i] to factors[..i + 1]. */
  lemma CountedNext(keys: seq<string>, count: map<string, nat>, factors: seq<string>, i: nat,
                    keys': seq<string>, count': map<string, nat>)
    requires i < |factors| && Counted(keys, count, factors[..i])
    requires keys' == if factors[i] in count then keys else keys + [factors[i]]
    requires count' == count[factors[i] := (if factors[i] in count then count[factors[i]] else 0) + 1]
    ensures Counted(keys', count', factors[..i + 1])
  {
    assert factors[..i + 1] == factors[..i] + [factors[i]];
    CountedStep(keys, count, factors[..i], factors[i]);
  }

  /** The counting pass of the source's compressFactors: every token, in order, adds
      one to its entry of an insertion-ordered map. */
  method CountOccurrences(factors: seq<string>) returns (keys: seq<string>, count: map<string, nat>)
    ensures Counted(keys, count, factors)
  {
    keys := [];
    count := map[];
    for i := 0 to |factors|
      invariant Counted(keys, count, factors[..i])
    {
      var factor := factors[i];
      ghost var keys0, count0 := keys, count;
      var previous := if factor in count then count[factor] else 0;
      if factor !in count {
        keys := keys + [factor];
      }
      count := count[factor := previous + 1];
      CountedNext(keys0, count0, factors, i, keys, count);
    }
    assert factors[..|factors|] == factors;
  }

  /** The source's compressFactors: the counting pass, then the map's entries rendered
      in insertion order. */
  method CompressFactors(factors: seq<string>) returns (tokens: seq<string>)
    ensures tokens == Compressed(factors)
  {
    var keys, count := CountOccurrences(factors);
    tokens := [];
    for j := 0 to |keys|
      invariant tokens == Rendered(keys[..j], count)
    {
      assert keys[..j + 1] == keys[..j] + [keys[j]];
      tokens := tokens + [Power(keys[j], count[keys[j]])];
    }
    assert keys[..|keys|] == keys;
    RenderedCounts(keys, count, factors);
  }

  /** The map's entries rendered in key order. */
  function Rendered(keys: seq<string>, count: map<string, nat>): seq<string>
    requires forall t :: t in keys ==> t in count
  {
    if keys == [] then []
    else Rendered(keys[..|keys| - 1], count) + [Power(keys[|keys| - 1], count[keys[|keys| - 1]])]
  }

  /** Rendering the entries of the filled map in order gives the compressed list. */
  lemma {:induction false} RenderedCounts(keys: seq<string>, count: map<string, nat>, factors: seq<string>)
    requires Counted(keys, count, factors)
    ensures Rendered(keys, count) == Compressed(factors)
  {
    RenderedIndex(keys, count);
  }

  /** Entry j of the rendering is key j with its count. */
  lemma {:induction false} RenderedIndex(keys: seq<string>, count: map<string, nat>)
    requires forall t :: t in keys ==> t in count
    ensures |Rendered(keys, count)| == |keys|
    ensures forall j :: 0 <= j < |keys| ==> Rendered(keys, count)[j] == Power(keys[j], count[keys[j]])
  {
    if keys != [] {
      var init := keys[..|keys| - 1];
      RenderedIndex(init, count);
      assert Rendered(keys, count) == Rendered(init, count) + [Power(keys[|keys| - 1], count[keys[|keys| - 1]])];
      forall j | 0 <= j < |init|
        ensures Rendered(keys, count)[j] == Power(keys[j], count[keys[j]])
      {
        assert init[j] == keys[j];
      }
    }
  }

  /** Each distinct element is listed once. */
  lemma {:induction false} DistinctMembers(s: seq<string>)
    ensures forall j, k :: 0 <= j < k < |Distinct(s)| ==> Distinct(s)[j] != Distinct(s)[k]
  {
    if s != [] {
      var init := s[..|s| - 1];
      DistinctMembers(init);
      assert s == init + [s[|s| - 1]];
    }
  }

  /** The distinct elements come in the order of their first occurrences in s. */
  lemma {:induction false} DistinctFirstSeen(s: seq<string>)
    ensures forall j, k :: 0 <= j < k < |Distinct(s)| ==>
      FirstIndex(s, Distinct(s)[j]) < FirstIndex(s, Distinct(s)[k])
  {
    DistinctMembers(s);
    if s != [] {
      var init := s[..|s| - 1];
      var last := s[|s| - 1];
      assert s == init + [last];
      DistinctFirstSeen(init);
      DistinctMembers(init);
      forall x | x in init
        ensures FirstIndex(s, x) == FirstIndex(init, x)
      {
        FirstIndexPrefix(init, last, x);
      }
      if last !in init {
        forall j | 0 <= j < |Distinct(init)|
          ensures FirstIndex(s, Distinct(init)[j]) < FirstIndex(s, last)
        {
          assert FirstIndex(s, last) == |init|;
        }
      }
    }
  }

  /** Appending to s does not move the first occurrence of an element already in s. */
  lemma {:induction false} FirstIndexPrefix(init: seq<string>, last: string, x: string)
    requires x in init
    ensures FirstIndex(init + [last], x) == FirstIndex(init, x)
  {
    if init[0] != x {
      assert (init + [last])[1..] == init[1..] + [last];
      FirstIndexPrefix(init[1..], last, x);
    }
  }

  /** Every exponent counts an element that occurs, so it is at least 1; the "^k" suffix
      appears exactly when the token occurs more than once. */
  lemma CompressedExponents(factors: seq<string>)
    ensures forall j :: 0 <= j < |Distinct(factors)| ==> multiset(factors)[Distinct(factors)[j]] >= 1
    ensures forall j :: 0 <= j < |Distinct(factors)| && multiset(factors)[Distinct(factors)[j]] == 1 ==>
      Compressed(factors)[j] == Distinct(factors)[j]
  {
    DistinctMembers(factors);
  }

  /** Nothing is lost: the exponents add up to the number of factors. */
  lemma CountsAddUp(factors: seq<string>)
    ensures CountSum(Distinct(factors), factors) == |factors|
  {
    CountsAddUpFrom(factors);
  }

  /** The sum, over keys, of the number of occurrences in s. */
  function CountSum(keys: seq<string>, s: seq<string>): nat
  {
    if keys == [] then 0 else multiset(s)[keys[0]] + CountSum(keys[1..], s)
  }

  /** Appending x to s adds one to the sum for every key list holding x once, and
      nothing for one without x. */
  lemma {:induction false} CountSumAppend(keys: seq<string>, s: seq<string>, x: string)
    requires forall j, k :: 0 <= j < k < |keys| ==> keys[j] != keys[k]
    ensures CountSum(keys, s + [x]) == CountSum(keys, s) + (if x in keys then 1 else 0)
  {
    assert multiset(s + [x]) == multiset(s) + multiset{x};
    if keys != [] {
      assert forall j, k :: 0 <= j < k < |keys[1..]| ==> keys[1..][j] != keys[1..][k] by {
        forall j, k | 0 <= j < k < |keys[1..]|
          ensures keys[1..][j] != keys[1..][k]
        {
          assert keys[1..][j] == keys[j + 1] && keys[1..][k] == keys[k + 1];
        }
      }
      CountSumAppend(keys[1..], s, x);
      if x == keys[0] {
        assert x !in keys[1..] by {
          forall k | 0 <= k < |keys[1..]|
            ensures keys[1..][k] != x
          {
            assert keys[1..][k] == keys[k + 1];
          }
        }
      }
    }
  }

  /** Appending a key adds its count. */
  lemma {:induction false} CountSumSnoc(keys: seq<string>, x: string, s: seq<string>)
    ensures CountSum(keys + [x], s) == CountSum(keys, s) + multiset(s)[x]
  {
    if keys != [] {
      assert (keys + [x])[1..] == keys[1..] + [x];
      CountSumSnoc(keys[1..], x, s);
    } else {
      assert [x][1..] == [];
    }
  }

  lemma {:induction false} CountsAddUpFrom(s: seq<string>)
    ensures CountSum(Distinct(s), s) == |s|
  {
    if s != [] {
      var init := s[..|s| - 1];
      var last := s[|s| - 1];
      assert s == init + [last];
      CountsAddUpFrom(init);
      DistinctMembers(init);
      CountSumAppend(Distinct(init), init, last);
      if last !in Distinct(init) {
        CountSumSnoc(Distinct(init), last, s);
        assert multiset(s)[last] == multiset(init)[last] + 1;
      }
    }
  }
}
