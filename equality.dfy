/** The equality engine `is_eq` (trabfa/bscpp.hpp:244-323) and its sequence walk
    `is_eq_iter` (trabfa/bscpp.hpp:395-408). The recursive dispatch over the kind of
    value is pure and is given by `IsEq`; the two loops of the header, the iterator
    walk and the map lookup loop, are the methods `IsEqIter` and `MapIsEq`, proved to
    compute what the dispatch uses. Pairs of values the C++ type system would not let
    reach one `is_eq` overload (different kinds, other than two text-like values) compare
    false. */
module Equality {
  import opened Wrappers
  import opened Values

  /** `is_eq(a, b)`, by the overload C++ picks for the two operands' types. Values of different
      kinds are never `is_eq`, and containers and aggregates only match ones of the same size;
      the lemmas below state each rule. */
  function IsEq(a: Value, b: Value): (r: bool)
    ensures r ==> SameShape(a, b)
    ensures r && a.Seq? ==> |a.items| == |b.items|
    ensures r && a.Map? ==> |a.entries| == |b.entries|
    ensures r && (a.Struct? || a.Opaque?) ==> |a.fields| == |b.fields|
    decreases a
  {
    match a
    case Char(_) => a == b
    case Int(_) => a == b
    case Bool(_) => a == b
    case Str(_) => TextEq(a, b)
    case CharPtr(_, _) => TextEq(a, b)
    case CharArray(_, _) => TextEq(a, b)
    case Enum(_, _, _) => a == b
    case Seq(kind, _, xs) =>
      b.Seq? && b.kind == kind &&
      if (kind == Vector || kind == Set) && |xs| != |b.items| then false
      else ItemsEq(xs, b.items)
    case Map(_, _, es) =>
      b.Map? && |es| == |b.entries| && EntriesEqFrom(a, 0, b.entries)
    case Struct(_, fs) =>
      b.Struct? && |fs| == |b.fields| && ItemsEq(fs, b.fields)
    case Opaque(_, fs) =>
      b.Opaque? && |fs| == |b.fields| && ItemsEq(fs, b.fields)
  }

  /** `is_eq` on text-like operands. Two operands of one pointer-like type reach the default
      `is_eq`, whose `lhs == rhs` compares the addresses; any other pair goes through the
      `std::string` overload and compares the characters. */
  predicate TextEq(a: Value, b: Value)
    requires IsText(a)
  {
    IsText(b) &&
    if ComparedByAddress(a, b) then a.addr == b.addr else TextOf(a) == TextOf(b)
  }

  /** What `is_eq_iter` returns: walk both sequences in step, stop with false at the first
      pair that is not `is_eq`, and succeed only if both ends are reached together. The
      unrolled conjunction `is_eq(a1, b1) && ... && is_eq(an, bn)` of the default `is_eq` on
      aggregates is the same walk over the fields. */
  function ItemsEq(xs: seq<Value>, ys: seq<Value>): (r: bool)
    ensures r ==> |xs| == |ys|
    ensures xs == [] && ys == [] ==> r
    decreases xs
  {
    if xs == [] || ys == [] then xs == [] && ys == []
    else IsEq(xs[0], ys[0]) && ItemsEq(xs[1..], ys[1..])
  }

  /** The loop of the map `is_eq` from entry `i` of the map `a` on: every remaining key of
      `a` must be in `other` (`count`) with an `is_eq` value (`at`); entry positions in
      `other` play no part. */
  function EntriesEqFrom(a: Value, i: nat, other: seq<(Value, Value)>): (r: bool)
    requires a.Map? && i <= |a.entries|
    ensures r ==> forall k :: i <= k < |a.entries| ==> Lookup(other, a.entries[k].0).Some?
    decreases a, |a.entries| - i
  {
    if i == |a.entries| then true
    else
      match Lookup(other, a.entries[i].0)
      case None => false
      case Some(w) => IsEq(a.entries[i].1, w) && EntriesEqFrom(a, i + 1, other)
  }

  /** `is_eq_iter`: two iterators advance in step while neither has reached its end; the
      first pair that is not `is_eq` ends the walk with false, otherwise the result is whether
      both ends were reached together. */
  method IsEqIter(xs: seq<Value>, ys: seq<Value>) returns (r: bool)
    ensures r == ItemsEq(xs, ys)
    ensures r <==> |xs| == |ys| && forall k :: 0 <= k < |xs| ==> IsEq(xs[k], ys[k])
  {
    ItemsEqIff(xs, ys);
    var aa, bb := 0, 0;
    while aa < |xs| && bb < |ys|
      invariant aa == bb && aa <= |xs| && bb <= |ys|
      invariant ItemsEq(xs, ys) == ItemsEq(xs[aa..], ys[bb..])
    {
      if !IsEq(xs[aa], ys[bb]) {
        return false;
      }
      assert xs[aa..][1..] == xs[aa + 1..] && ys[bb..][1..] == ys[bb + 1..];
      aa := aa + 1;
      bb := bb + 1;
    }
    r := aa == |xs| && bb == |ys|;
  }

  /** The map overload of `is_eq`: unequal sizes compare false; otherwise each entry of `a` is
      looked up by key in `b`, and a missing key or a value that is not `is_eq` returns false
      at once. */
  method MapIsEq(a: Value, b: Value) returns (r: bool)
    requires a.Map? && b.Map?
    ensures r == IsEq(a, b)
    ensures r <==> |a.entries| == |b.entries| &&
                   forall k :: 0 <= k < |a.entries| ==>
                     Lookup(b.entries, a.entries[k].0).Some? &&
                     IsEq(a.entries[k].1, Lookup(b.entries, a.entries[k].0).value)
  {
    EntriesEqIff(a, 0, b.entries);
    if |a.entries| != |b.entries| {
      return false;
    }
    for i := 0 to |a.entries|
      invariant EntriesEqFrom(a, 0, b.entries) == EntriesEqFrom(a, i, b.entries)
    {
      var (key, value) := a.entries[i];
      var found := Lookup(b.entries, key);
      if found.None? || !IsEq(value, found.value) {
        return false;
      }
    }
    r := true;
  }

  /** `is_eq_iter` holds exactly for sequences of the same length that are pairwise `is_eq`
      in order. */
  lemma {:induction false} ItemsEqIff(xs: seq<Value>, ys: seq<Value>)
    ensures ItemsEq(xs, ys) <==> |xs| == |ys| && forall k :: 0 <= k < |xs| ==> IsEq(xs[k], ys[k])
  {
    if xs != [] && ys != [] {
      ItemsEqIff(xs[1..], ys[1..]);
      if |xs| == |ys| && forall k :: 0 <= k < |xs| ==> IsEq(xs[k], ys[k]) {
        assert forall k :: 0 <= k < |xs| - 1 ==> xs[1..][k] == xs[k + 1] && ys[1..][k] == ys[k + 1];
      }
    }
  }

  /** When `is_eq_iter` fails on sequences of equal length, there is a first position at
      which the items are not `is_eq`, and every earlier position matched. */
  lemma FirstMismatch(xs: seq<Value>, ys: seq<Value>) returns (k: nat)
    requires |xs| == |ys| && !ItemsEq(xs, ys)
    ensures k < |xs| && !IsEq(xs[k], ys[k])
    ensures forall j :: 0 <= j < k ==> IsEq(xs[j], ys[j])
  {
    ItemsEqIff(xs, ys);
    k := 0;
    while IsEq(xs[k], ys[k])
      invariant k < |xs|
      invariant forall j :: 0 <= j < k ==> IsEq(xs[j], ys[j])
      invariant exists m :: k <= m < |xs| && !IsEq(xs[m], ys[m])
      decreases |xs| - k
    {
      k := k + 1;
    }
  }

  /** The map loop from entry `i` on succeeds exactly when every remaining key of `a` is in
      `other` with an `is_eq` value. */
  lemma {:induction false} EntriesEqIff(a: Value, i: nat, other: seq<(Value, Value)>)
    requires a.Map? && i <= |a.entries|
    ensures EntriesEqFrom(a, i, other) <==>
            forall k :: i <= k < |a.entries| ==>
              Lookup(other, a.entries[k].0).Some? &&
              IsEq(a.entries[k].1, Lookup(other, a.entries[k].0).value)
    decreases |a.entries| - i
  {
    if i < |a.entries| {
      EntriesEqIff(a, i + 1, other);
    }
  }

  /** Map equality looks entries up by key, so it depends on the right-hand map only through
      its size and its key-to-value association, not on where an entry sits. */
  lemma MapEqIgnoresEntryOrder(a: Value, b1: Value, b2: Value)
    requires a.Map? && b1.Map? && b2.Map?
    requires |b1.entries| == |b2.entries|
    requires forall key :: Lookup(b1.entries, key) == Lookup(b2.entries, key)
    ensures IsEq(a, b1) == IsEq(a, b2)
  {
    EntriesEqIff(a, 0, b1.entries);
    EntriesEqIff(a, 0, b2.entries);
  }

  /** The default `is_eq` on an aggregate, standard-layout or not, is the short-circuit
      conjunction of `is_eq` on the corresponding fields. */
  lemma StructEqIff(name: string, xs: seq<Value>, ys: seq<Value>)
    requires |xs| == |ys|
    ensures IsEq(Struct(name, xs), Struct(name, ys)) <==>
            forall k :: 0 <= k < |xs| ==> IsEq(xs[k], ys[k])
    ensures IsEq(Opaque(name, xs), Opaque(name, ys)) <==>
            forall k :: 0 <= k < |xs| ==> IsEq(xs[k], ys[k])
  {
    ItemsEqIff(xs, ys);
  }

  /** Aggregates without fields always compare equal (`num == 0` returns true). */
  lemma ZeroFieldStructsEqual(name: string)
    ensures IsEq(Struct(name, []), Struct(name, []))
    ensures IsEq(Opaque(name, []), Opaque(name, []))
  {
  }

  /** Scalars and enumerators compare with `==`. */
  lemma ScalarEq(a: Value, b: Value)
    requires a.Char? || a.Int? || a.Bool? || a.Enum?
    ensures IsEq(a, b) <==> a == b
  {
  }

  /** Text-like operands that are not both `const char*` or both char arrays of one length
      compare their characters, whatever the two types: `std::string` against
      `std::string`, a C string against a `std::string`, arrays of different lengths. */
  lemma TextEqByContent(a: Value, b: Value)
    requires IsText(a) && IsText(b) && !ComparedByAddress(a, b)
    ensures IsEq(a, b) <==> TextOf(a) == TextOf(b)
  {
  }

  /** Two `const char*` are `is_eq` exactly when they hold the same address, and so are two
      char arrays of one length; the characters play no part. */
  lemma CStringsEqByAddress(a: Value, b: Value)
    requires ComparedByAddress(a, b)
    ensures IsEq(a, b) <==> a.addr == b.addr
  {
  }

  /** Two distinct char arrays spelling the same text, such as `char a[] = "ab", b[] = "ab";`,
      are not `is_eq`, though a `std::string` holding that text is `is_eq` to each. */
  lemma SameTextDifferentArrays(text: string, p: nat, q: nat)
    requires p != q && '\0' !in text
    ensures !IsEq(CharArray(text + "\0", p), CharArray(text + "\0", q))
    ensures IsEq(Str(text), CharArray(text + "\0", p)) && IsEq(CharArray(text + "\0", q), Str(text))
  {
    CStringTextOfLiteral(text);
  }

  /** A string literal's text is what precedes its terminating NUL. */
  lemma {:induction false} CStringTextOfLiteral(text: string)
    requires '\0' !in text
    ensures CStringText(text + "\0") == text
  {
    if text != [] {
      assert (text + "\0")[1..] == text[1..] + "\0";
      CStringTextOfLiteral(text[1..]);
    }
  }

  /** `std::array`, `std::vector`, `std::set` and built-in arrays are `is_eq` exactly when they
      have the same size and their items are `is_eq` position by position. A `std::set` is
      thus compared in iteration order, not by membership. */
  lemma SeqEqIff(kind: SeqKind, t: string, u: string, xs: seq<Value>, ys: seq<Value>)
    ensures IsEq(Seq(kind, t, xs), Seq(kind, u, ys)) <==>
            |xs| == |ys| && forall k :: 0 <= k < |xs| ==> IsEq(xs[k], ys[k])
  {
    ItemsEqIff(xs, ys);
  }

  /** `is_eq` is reflexive on every value a program can build. */
  lemma {:induction false} IsEqReflexive(v: Value)
    requires WellFormed(v)
    ensures IsEq(v, v)
    decreases v
  {
    match v
    case Seq(_, _, xs) => ItemsEqReflexive(xs);
    case Struct(_, fs) => ItemsEqReflexive(fs);
    case Opaque(_, fs) => ItemsEqReflexive(fs);
    case Map(_, _, es) => EntriesEqReflexive(v, 0);
    case _ =>
  }

  lemma {:induction false} ItemsEqReflexive(xs: seq<Value>)
    requires forall k :: 0 <= k < |xs| ==> WellFormed(xs[k])
    ensures ItemsEq(xs, xs)
    decreases xs
  {
    if xs != [] {
      IsEqReflexive(xs[0]);
      ItemsEqReflexive(xs[1..]);
    }
  }

  lemma {:induction false} EntriesEqReflexive(m: Value, i: nat)
    requires m.Map? && WellFormed(m) && i <= |m.entries|
    ensures EntriesEqFrom(m, i, m.entries)
    decreases m, |m.entries| - i
  {
    if i < |m.entries| {
      LookupOwnKey(m.entries, i);
      IsEqReflexive(m.entries[i].1);
      EntriesEqReflexive(m, i + 1);
    }
  }
}
