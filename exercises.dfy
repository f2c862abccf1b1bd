/** The two exercises the harness checks (trabfa/trab2fa.cpp): `reorganiza_nomes`, which
    groups names into short, medium and long, and `num_unicos`, meant to tell whether the
    numbers of a vector are pairwise distinct. */
module Exercises {

  /** The three groups of `reorganiza_nomes`, by length in bytes. */
  datatype Size = Short | Medium | Long

  function SizeOf(name: string): Size {
    if |name| <= 3 then Short
    else if 3 < |name| <= 8 then Medium
    else Long
  }

  /** The group of a name: up to 3 bytes short, 4 to 8 medium, more than 8 long. */
  lemma SizeClasses(name: string)
    ensures SizeOf(name) == Short <==> |name| <= 3
    ensures SizeOf(name) == Medium <==> 4 <= |name| <= 8
    ensures SizeOf(name) == Long <==> |name| > 8
  {
  }

  /** The position of a group in the output. */
  function Rank(s: Size): nat {
    match s
    case Short => 0
    case Medium => 1
    case Long => 2
  }

  /** The names of one group, in input order. */
  function Filter(names: seq<string>, s: Size): (r: seq<string>)
    ensures |r| <= |names|
    ensures forall k :: 0 <= k < |r| ==> SizeOf(r[k]) == s
  {
    if names == [] then []
    else
      var last := names[|names| - 1];
      Filter(names[..|names| - 1], s) + (if SizeOf(last) == s then [last] else [])
  }

  /** What `reorganiza_nomes` returns: the short names, then the medium ones, then the long ones. */
  function Reorganized(names: seq<string>): (r: seq<string>)
    ensures |r| == |names|
  {
    GroupSizes(names);
    Filter(names, Short) + Filter(names, Medium) + Filter(names, Long)
  }

  /** The three groups together are as long as the input. */
  lemma {:induction false} GroupSizes(names: seq<string>)
    ensures |Filter(names, Short)| + |Filter(names, Medium)| + |Filter(names, Long)| == |names|
  {
    if names != [] {
      GroupSizes(names[..|names| - 1]);
    }
  }

  /** Group ranks never decrease along the sequence. */
  predicate Grouped(names: seq<string>) {
    forall i, j :: 0 <= i < j < |names| ==> Rank(SizeOf(names[i])) <= Rank(SizeOf(names[j]))
  }

  /** `reorganiza_nomes`: three passes push each name onto its group's vector, then the
      groups are appended to the result in order. */
  method ReorganizaNomes(nomes: seq<string>) returns (resultado: seq<string>)
    ensures resultado == Reorganized(nomes)
  {
    resultado := [];
    var curtos: seq<string> := [];
    var medianos: seq<string> := [];
    var longos: seq<string> := [];
    if |nomes| == 0 {
      resultado := [];
    }
    for i := 0 to |nomes|
      invariant curtos == Filter(nomes[..i], Short)
      invariant medianos == Filter(nomes[..i], Medium)
      invariant longos == Filter(nomes[..i], Long)
    {
      assert nomes[..i + 1] == nomes[..i] + [nomes[i]];
      FilterSnocName(nomes[..i], nomes[i], Short);
      FilterSnocName(nomes[..i], nomes[i], Medium);
      FilterSnocName(nomes[..i], nomes[i], Long);
      if |nomes[i]| <= 3 {
        curtos := curtos + [nomes[i]];
      } else if 3 < |nomes[i]| && |nomes[i]| <= 8 {
        medianos := medianos + [nomes[i]];
      } else {
        longos := longos + [nomes[i]];
      }
    }
    assert nomes[..|nomes|] == nomes;
    for i := 0 to |curtos|
      invariant resultado == curtos[..i]
    {
      assert curtos[..i + 1] == curtos[..i] + [curtos[i]];
      resultado := resultado + [curtos[i]];
    }
    for i := 0 to |medianos|
      invariant resultado == curtos + medianos[..i]
    {
      assert medianos[..i + 1] == medianos[..i] + [medianos[i]];
      resultado := resultado + [medianos[i]];
    }
    for i := 0 to |longos|
      invariant resultado == curtos + medianos + longos[..i]
    {
      assert longos[..i + 1] == longos[..i] + [longos[i]];
      resultado := resultado + [longos[i]];
    }
  }

  /** Taking one group of a concatenation takes it from each part. */
  lemma {:induction false} FilterAppend(a: seq<string>, b: seq<string>, s: Size)
    ensures Filter(a + b, s) == Filter(a, s) + Filter(b, s)
    decreases |b|
  {
    if b == [] {
      assert a + b == a;
    } else {
      var n := |b| - 1;
      assert (a + b)[..|a + b| - 1] == a + b[..n];
      assert (a + b)[|a + b| - 1] == b[n];
      FilterAppend(a, b[..n], s);
    }
  }

  /** The three groups together hold every name exactly as often as the input does. */
  lemma {:induction false} GroupsPartition(names: seq<string>)
    ensures multiset(Filter(names, Short)) + multiset(Filter(names, Medium)) + multiset(Filter(names, Long))
            == multiset(names)
    decreases |names|
  {
    if names != [] {
      var n := |names| - 1;
      var init, last := names[..n], names[n];
      GroupsPartition(init);
      assert names == init + [last];
      assert multiset(names) == multiset(init) + multiset{last};
      FilterSnocName(init, last, Short);
      FilterSnocName(init, last, Medium);
      FilterSnocName(init, last, Long);
    }
  }

  /** The result is a permutation of the input. */
  lemma ReorganizedPermutation(names: seq<string>)
    ensures multiset(Reorganized(names)) == multiset(names)
    ensures |Reorganized(names)| == |names|
  {
    GroupsPartition(names);
    assert |multiset(Reorganized(names))| == |multiset(names)|;
  }

  /** Filtering by a group keeps a sequence already of that group and empties it for any
      other group. */
  lemma {:induction false} FilterOfFilter(names: seq<string>, s: Size, t: Size)
    ensures Filter(Filter(names, s), t) == if s == t then Filter(names, s) else []
    decreases |names|
  {
    if names != [] {
      var n := |names| - 1;
      var last := names[n];
      FilterOfFilter(names[..n], s, t);
      FilterAppend(Filter(names[..n], s), if SizeOf(last) == s then [last] else [], t);
    }
  }

  /** Within each group the result keeps the input order: `reorganiza_nomes` is stable. */
  lemma ReorganizedStable(names: seq<string>)
    ensures forall s :: Filter(Reorganized(names), s) == Filter(names, s)
  {
    forall s
      ensures Filter(Reorganized(names), s) == Filter(names, s)
    {
      ReorganizedStableIn(names, s);
    }
  }

  lemma ReorganizedStableIn(names: seq<string>, s: Size)
    ensures Filter(Reorganized(names), s) == Filter(names, s)
  {
    GroupsRegrouped(names, s);
  }

  /** Taking one group of the three groups laid end to end gives that group back. */
  lemma GroupsRegrouped(names: seq<string>, s: Size)
    ensures Filter(Filter(names, Short) + Filter(names, Medium) + Filter(names, Long), s) == Filter(names, s)
  {
    var a, b, c := Filter(names, Short), Filter(names, Medium), Filter(names, Long);
    FilterAppend(a + b, c, s);
    FilterAppend(a, b, s);
    RegroupedParts(names, s);
  }

  /** Each group, filtered again by `s`, is kept when it is group `s` and emptied otherwise. */
  lemma RegroupedParts(names: seq<string>, s: Size)
    ensures Filter(Filter(names, Short), s) + Filter(Filter(names, Medium), s) + Filter(Filter(names, Long), s)
            == Filter(names, s)
  {
    FilterOfFilter(names, Short, s);
    FilterOfFilter(names, Medium, s);
    FilterOfFilter(names, Long, s);
    KeepOneOfThree(Filter(names, Short), Filter(names, Medium), Filter(names, Long), Rank(s));
  }

  /** Of three parts with two of them emptied, the concatenation is the part that is kept. */
  lemma KeepOneOfThree(a: seq<string>, b: seq<string>, c: seq<string>, k: nat)
    requires k <= 2
    ensures (if k == 0 then a else []) + (if k == 1 then b else []) + (if k == 2 then c else [])
            == [a, b, c][k]
  {
    if k == 0 {
      assert a + [] + [] == a;
    } else if k == 1 {
      assert [] + b + [] == b;
    } else {
      assert [] + [] + c == c;
    }
  }

  /** The short names come first, then the medium ones, then the long ones. */
  lemma ReorganizedGrouped(names: seq<string>)
    ensures Grouped(Reorganized(names))
  {
    var a, b, c := Filter(names, Short), Filter(names, Medium), Filter(names, Long);
    var r := Reorganized(names);
    forall i, j | 0 <= i < j < |r|
      ensures Rank(SizeOf(r[i])) <= Rank(SizeOf(r[j]))
    {
      assert r == a + b + c;
      if i < |a| {
        assert SizeOf(r[i]) == Short;
      } else if i < |a| + |b| {
        assert r[i] == b[i - |a|];
        assert r[j] == (b + c)[j - |a|];
      } else {
        assert r[i] == c[i - |a| - |b|] && r[j] == c[j - |a| - |b|];
      }
    }
  }

  /** Reorganising an already reorganised vector changes nothing. */
  lemma ReorganizedIdempotent(names: seq<string>)
    ensures Reorganized(Reorganized(names)) == Reorganized(names)
  {
    ReorganizedStable(names);
  }

  /** The first three names of the exercise's examples are all of medium length. */
  lemma ThreeMediumNames()
    ensures Filter(["Maria", "Joao", "Pedro"], Short) == []
    ensures Filter(["Maria", "Joao", "Pedro"], Medium) == ["Maria", "Joao", "Pedro"]
    ensures Filter(["Maria", "Joao", "Pedro"], Long) == []
  {
    assert [] + ["Maria"] == ["Maria"];
    assert ["Maria"] + ["Joao"] == ["Maria", "Joao"];
    assert ["Maria", "Joao"] + ["Pedro"] == ["Maria", "Joao", "Pedro"];
    FilterSnocName([], "Maria", Short);
    FilterSnocName(["Maria"], "Joao", Short);
    FilterSnocName(["Maria", "Joao"], "Pedro", Short);
    FilterSnocName([], "Maria", Medium);
    FilterSnocName(["Maria"], "Joao", Medium);
    FilterSnocName(["Maria", "Joao"], "Pedro", Medium);
    FilterSnocName([], "Maria", Long);
    FilterSnocName(["Maria"], "Joao", Long);
    FilterSnocName(["Maria", "Joao"], "Pedro", Long);
  }

  /** The first case the exercise checks: a short name moves to the front. */
  lemma ReorganizedFirstExample()
    ensures Reorganized(["Maria", "Joao", "Pedro", "Ash"]) == ["Ash", "Maria", "Joao", "Pedro"]
  {
    var three := ["Maria", "Joao", "Pedro"];
    ThreeMediumNames();
    assert three + ["Ash"] == ["Maria", "Joao", "Pedro", "Ash"];
    FilterSnocName(three, "Ash", Short);
    FilterSnocName(three, "Ash", Medium);
    FilterSnocName(three, "Ash", Long);
  }

  /** The second case: the names are already grouped and stay where they are. */
  lemma ReorganizedSecondExample()
    ensures Reorganized(["Maria", "Joao", "Pedro", "Joao Vassallo"]) == ["Maria", "Joao", "Pedro", "Joao Vassallo"]
  {
    var three := ["Maria", "Joao", "Pedro"];
    ThreeMediumNames();
    assert three + ["Joao Vassallo"] == ["Maria", "Joao", "Pedro", "Joao Vassallo"];
    FilterSnocName(three, "Joao Vassallo", Short);
    FilterSnocName(three, "Joao Vassallo", Medium);
    FilterSnocName(three, "Joao Vassallo", Long);
  }

  /** The third case: one name of each group. */
  lemma ReorganizedThirdExample()
    ensures Reorganized(["Maria", "Joao", "Pedro", "Ash", "Joao Vassallo"])
            == ["Ash", "Maria", "Joao", "Pedro", "Joao Vassallo"]
  {
    var three := ["Maria", "Joao", "Pedro"];
    var four := three + ["Ash"];
    ThreeMediumNames();
    assert four + ["Joao Vassallo"] == ["Maria", "Joao", "Pedro", "Ash", "Joao Vassallo"];
    FilterSnocName(three, "Ash", Short);
    FilterSnocName(three, "Ash", Medium);
    FilterSnocName(three, "Ash", Long);
    FilterSnocName(four, "Joao Vassallo", Short);
    FilterSnocName(four, "Joao Vassallo", Medium);
    FilterSnocName(four, "Joao Vassallo", Long);
  }

  /** The fourth case: the empty vector. */
  lemma ReorganizedEmptyExample()
    ensures Reorganized([]) == []
  {
  }

  /** A name put at the end joins its own group at the end. */
  lemma FilterSnocName(names: seq<string>, name: string, s: Size)
    ensures Filter(names + [name], s) == Filter(names, s) + (if SizeOf(name) == s then [name] else [])
  {
    assert (names + [name])[..|names|] == names;
  }

  /** What `num_unicos` tests for: two positions, not necessarily different, holding equal
      numbers. */
  predicate SomeEqualPair(numeros: seq<int>) {
    exists i, j :: 0 <= i < |numeros| && 0 <= j < |numeros| && numeros[i] == numeros[j]
  }

  /** What `num_unicos` is meant to tell: no number occurs twice. */
  predicate AllDistinct(numeros: seq<int>) {
    forall i, j :: 0 <= i < |numeros| && 0 <= j < |numeros| && i != j ==> numeros[i] != numeros[j]
  }

  /** Every position pairs with itself, so the test of `num_unicos` holds on every
      non-empty vector. */
  lemma SomeEqualPairIffNonEmpty(numeros: seq<int>)
    ensures SomeEqualPair(numeros) <==> |numeros| > 0
  {
    if |numeros| > 0 {
      var i, j := 0, 0;
      assert 0 <= i < |numeros| && 0 <= j < |numeros| && numeros[i] == numeros[j];
    }
  }

  /** `num_unicos` as written: both loops run over every position, so each number is
      compared with itself and the answer is `true` only for the empty vector. */
  method NumUnicos(numeros: seq<int>) returns (resultado: bool)
    ensures resultado <==> !SomeEqualPair(numeros)
    ensures resultado <==> |numeros| == 0
  {
    resultado := true;
    for i := 0 to |numeros|
      invariant resultado <==> !exists p, q :: 0 <= p < i && 0 <= q < |numeros| && numeros[p] == numeros[q]
    {
      for j := 0 to |numeros|
        invariant resultado <==>
          !(exists p, q :: 0 <= p < i && 0 <= q < |numeros| && numeros[p] == numeros[q]) &&
          !(exists q :: 0 <= q < j && numeros[i] == numeros[q])
      {
        if numeros[i] == numeros[j] {
          resultado := false;
        }
      }
    }
    SomeEqualPairIffNonEmpty(numeros);
  }

  /** `num_unicos` with the comparison of a position with itself left out, as the exercise
      and its examples intend. */
  method NumUnicosCorrected(numeros: seq<int>) returns (resultado: bool)
    ensures resultado <==> AllDistinct(numeros)
  {
    resultado := true;
    for i := 0 to |numeros|
      invariant resultado <==>
        forall p, q :: 0 <= p < i && 0 <= q < |numeros| && p != q ==> numeros[p] != numeros[q]
    {
      for j := 0 to |numeros|
        invariant resultado <==>
          (forall p, q :: 0 <= p < i && 0 <= q < |numeros| && p != q ==> numeros[p] != numeros[q]) &&
          (forall q :: 0 <= q < j && i != q ==> numeros[i] != numeros[q])
      {
        if i != j && numeros[i] == numeros[j] {
          resultado := false;
        }
      }
    }
  }

  /** The first example expects `true` for {1, 2, 3, 4, 5, 6}: its numbers are distinct, yet
      the vector is not empty, so `num_unicos` as written answers `false`. */
  lemma NumUnicosFirstExampleFails()
    ensures AllDistinct([1, 2, 3, 4, 5, 6])
    ensures SomeEqualPair([1, 2, 3, 4, 5, 6])
  {
    SomeEqualPairIffNonEmpty([1, 2, 3, 4, 5, 6]);
  }

  /** The corrected test agrees with all three examples. */
  lemma NumUnicosCorrectedExamples()
    ensures AllDistinct([1, 2, 3, 4, 5, 6])
    ensures !AllDistinct([1, 2, 5, 4, 5, 6])
    ensures !AllDistinct([1, 2, 3, 3, 3, 6])
  {
    var b := [1, 2, 5, 4, 5, 6];
    assert b[2] == b[4];
    var c := [1, 2, 3, 3, 3, 6];
    assert c[2] == c[3];
  }
}
