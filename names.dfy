/** Name resolution (trabfa/bscpp.hpp:410-503): type and enumerator names cut out of the
    signature text the compiler gives a function template instantiation. The signature text
    and the compiler's prefix/suffix pair are parameters; the searching and slicing are
    modelled with `std::string_view`'s rules, including `npos` and unsigned wrap-around
    of `size_t`. */
module Names {
  import opened Wrappers

  /** `std::string_view::npos`, the largest `size_t`. */
  const NPos: nat := 0xFFFF_FFFF_FFFF_FFFF

  /** `size_t` arithmetic is modulo 2^64. */
  const SizeModulus: nat := 0x1_0000_0000_0000_0000

  /** The canonical spelling `type_name` substitutes for the long spelling of `std::string`. */
  const StdStringName: string := "std::string"

  predicate OccursAt(text: string, pat: string, i: nat) {
    i + |pat| <= |text| && text[i..i + |pat|] == pat
  }

  predicate Contains(text: string, pat: string) {
    exists i: nat :: i <= |text| && OccursAt(text, pat, i)
  }

  /** The first position at or after `from` where `pat` occurs, if any. */
  function FindFrom(text: string, pat: string, from: nat): (r: Option<nat>)
    decreases |text| - from
    ensures r.Some? ==> from <= r.value && OccursAt(text, pat, r.value)
    ensures r.Some? ==> forall j: nat :: from <= j < r.value ==> !OccursAt(text, pat, j)
    ensures r.None? ==> forall j: nat :: from <= j ==> !OccursAt(text, pat, j)
  {
    if from + |pat| > |text| then None
    else if OccursAt(text, pat, from) then Some(from)
    else FindFrom(text, pat, from + 1)
  }

  /** The last position at or before `upto` where `pat` occurs, if any. */
  function RFindUpto(text: string, pat: string, upto: nat): (r: Option<nat>)
    decreases upto
    ensures r.Some? ==> r.value <= upto && OccursAt(text, pat, r.value)
    ensures r.Some? ==> forall j: nat :: r.value < j <= upto ==> !OccursAt(text, pat, j)
    ensures r.None? ==> forall j: nat :: j <= upto ==> !OccursAt(text, pat, j)
  {
    if OccursAt(text, pat, upto) then Some(upto)
    else if upto == 0 then None
    else RFindUpto(text, pat, upto - 1)
  }

  /** `find(pat)` as a `size_t`: the first occurrence or `npos`. */
  function Find(text: string, pat: string): (r: nat)
    ensures r == NPos || (OccursAt(text, pat, r) && forall j: nat :: j < r ==> !OccursAt(text, pat, j))
    ensures |text| < NPos ==> (r == NPos <==> !Contains(text, pat))
  {
    match FindFrom(text, pat, 0)
    case Some(i) => i
    case None => NPos
  }

  /** `rfind(pat)` as a `size_t`: the last occurrence or `npos`. */
  function RFind(text: string, pat: string): (r: nat)
    ensures r == NPos || (OccursAt(text, pat, r) && forall j: nat :: r < j ==> !OccursAt(text, pat, j))
    ensures |text| < NPos ==> (r == NPos <==> !Contains(text, pat))
  {
    if |pat| > |text| then NPos
    else
      match RFindUpto(text, pat, |text| - |pat|)
      case Some(i) => i
      case None => NPos
  }

  /** `substr(pos, count)`: throws `std::out_of_range` (here `None`) when `pos` is past the
      end, and otherwise keeps at most `count` characters. */
  function SubStr(text: string, pos: nat, count: nat): (r: Option<string>)
    ensures r.Some? <==> pos <= |text|
    ensures r.Some? ==> |r.value| <= count && |r.value| <= |text| - pos
    ensures r.Some? ==> OccursAt(text, r.value, pos)
    ensures r.Some? ==> |r.value| == if count <= |text| - pos then count else |text| - pos
  {
    if pos > |text| then None
    else if count <= |text| - pos then Some(text[pos..pos + count])
    else Some(text[pos..])
  }

  /** The common tail of `type_name_` and `enum_name<T, E>`: `start` is `find(prefix) +
      prefix.size()`, the slice is `substr(start, end - start)`, all in `size_t`. */
  function Slice(signature: string, prefix: string, end: nat): (r: Option<string>)
    ensures r.Some? ==> Contains(signature, r.value)
    ensures |signature| < NPos && Contains(signature, prefix) ==> r.Some?
  {
    var start := (Find(signature, prefix) + |prefix|) % SizeModulus;
    var size := (end - start) % SizeModulus;
    SubStr(signature, start, size)
  }

  /** `type_name_<T>()`: the text between the first occurrence of the prefix and the first
      occurrence of the suffix. */
  function TypeNameSlice(signature: string, prefix: string, suffix: string): (r: Option<string>)
    ensures r.Some? ==> Contains(signature, r.value)
    ensures |signature| < NPos && Contains(signature, prefix) ==> r.Some?
  {
    Slice(signature, prefix, Find(signature, suffix))
  }

  /** `enum_name<T, E>()`: the text between the first occurrence of the prefix and the last
      occurrence of the suffix. */
  function EnumMemberSlice(signature: string, prefix: string, suffix: string): (r: Option<string>)
    ensures r.Some? ==> Contains(signature, r.value)
    ensures |signature| < NPos && Contains(signature, prefix) ==> r.Some?
  {
    Slice(signature, prefix, RFind(signature, suffix))
  }

  /** Every space removed, every other character kept in order (`std::remove` then `erase`). */
  function RemoveSpaces(s: string): (r: string)
    ensures ' ' !in r
    ensures |r| <= |s|
  {
    if s == [] then []
    else RemoveSpaces(s[..|s| - 1]) + (if s[|s| - 1] == ' ' then [] else [s[|s| - 1]])
  }

  /** The normalising loop of `type_name`: while the long spelling `stn` of `std::string`
      occurs, its first occurrence is replaced by `std::string`. It ends because `stn` is
      longer than its replacement, so every round makes the name shorter. */
  function ReplaceAll(name: string, stn: string): (r: string)
    requires |stn| > |StdStringName|
    ensures !Contains(r, stn)
    decreases |name|
  {
    match FindFrom(name, stn, 0)
    case None => name
    case Some(i) => ReplaceAll(name[..i] + StdStringName + name[i + |stn|..], stn)
  }

  /** What `type_name<T>()` returns: `std::string` itself for `std::string`, otherwise the
      slice `sliced` of the signature with the long string spelling `stn` normalised and
      the spaces removed. */
  function TypeNameOf(isStdString: bool, sliced: string, stn: string): (r: string)
    requires |stn| > |StdStringName|
    ensures ' ' !in r
    ensures isStdString ==> r == StdStringName
    ensures !isStdString ==> |r| <= |ReplaceAll(sliced, stn)|
  {
    if isStdString then StdStringName else RemoveSpaces(ReplaceAll(sliced, stn))
  }

  /** `type_name<T>()`: the replacement loop, then the spaces removed in place. */
  method TypeName(isStdString: bool, sliced: string, stn: string) returns (name: string)
    requires |stn| > |StdStringName|
    ensures name == TypeNameOf(isStdString, sliced, stn)
    ensures ' ' !in name
    ensures !isStdString ==> !Contains(ReplaceAll(sliced, stn), stn) && |name| <= |ReplaceAll(sliced, stn)|
  {
    if isStdString {
      return StdStringName;
    }
    name := sliced;
    while FindFrom(name, stn, 0).Some?
      invariant ReplaceAll(name, stn) == ReplaceAll(sliced, stn)
      decreases |name|
    {
      var i := FindFrom(name, stn, 0).value;
      name := name[..i] + StdStringName + name[i + |stn|..];
    }
    var buffer := new char[|name|](k requires 0 <= k < |name| => name[k]);
    assert buffer[..] == name;
    var len := RemoveSpacesInPlace(buffer);
    name := buffer[..len];
  }

  /** `std::remove(begin, end, ' ')` on a character buffer: the characters that are not
      spaces are moved to the front in their order; the returned length is where `erase`
      cuts. */
  method RemoveSpacesInPlace(a: array<char>) returns (len: nat)
    modifies a
    ensures len <= a.Length && a[..len] == RemoveSpaces(old(a[..]))
  {
    ghost var original := a[..];
    len := 0;
    for r := 0 to a.Length
      invariant len <= r
      invariant a[..len] == RemoveSpaces(original[..r])
      invariant forall k :: r <= k < a.Length ==> a[k] == original[k]
    {
      var c := a[r];
      assert original[..r + 1][..r] == original[..r];
      assert RemoveSpaces(original[..r + 1]) == RemoveSpaces(original[..r]) + (if c == ' ' then [] else [c]);
      if c != ' ' {
        ghost var kept := a[..len];
        a[len] := c;
        assert a[..len + 1] == kept + [c];
        len := len + 1;
      }
    }
    assert original[..a.Length] == original;
  }

  /** The chain of candidates in `enum_name(value)` from `n` on: the first raw value between
      `n` and 10 that equals `raw` gives `TypeName::Member`, and none gives "?". */
  function EnumNameFrom(typeName: string, members: seq<string>, raw: int, n: nat): (r: string)
    requires |members| == 11 && n <= 11
    ensures n <= raw <= 10 ==> r == typeName + "::" + members[raw]
    ensures !(n <= raw <= 10) ==> r == "?"
    decreases 11 - n
  {
    if n == 11 then "?"
    else if raw == n then typeName + "::" + members[n]
    else EnumNameFrom(typeName, members, raw, n + 1)
  }

  /** `enum_name(value)`: `members[n]` is what `enum_name<T, n>()` yields. */
  function EnumName(typeName: string, members: seq<string>, raw: int): (r: string)
    requires |members| == 11
    ensures 0 <= raw <= 10 ==> r == typeName + "::" + members[raw]
    ensures !(0 <= raw <= 10) ==> r == "?"
  {
    EnumNameFrom(typeName, members, raw, 0)
  }

  /** With the prefix first occurring at `p` and the suffix first occurring at or after the
      prefix's end, `type_name_` yields exactly the text between them. */
  lemma TypeNameSliceFound(signature: string, prefix: string, suffix: string, p: nat, q: nat)
    requires |signature| < NPos
    requires OccursAt(signature, prefix, p) && forall j: nat :: j < p ==> !OccursAt(signature, prefix, j)
    requires OccursAt(signature, suffix, q) && forall j: nat :: j < q ==> !OccursAt(signature, suffix, j)
    requires p + |prefix| <= q
    ensures TypeNameSlice(signature, prefix, suffix) == Some(signature[p + |prefix|..q])
  {
    FindFirst(signature, prefix, p);
    FindFirst(signature, suffix, q);
    var start := p + |prefix|;
    assert (Find(signature, prefix) + |prefix|) % SizeModulus == start;
    assert (q - start) % SizeModulus == q - start;
    assert SubStr(signature, start, q - start) == Some(signature[start..q]);
  }

  /** `find` reports the first occurrence. */
  lemma FindFirst(text: string, pat: string, p: nat)
    requires OccursAt(text, pat, p) && forall j: nat :: j < p ==> !OccursAt(text, pat, j)
    ensures Find(text, pat) == p
  {
    assert FindFrom(text, pat, 0) == Some(p);
  }

  /** With the prefix first occurring at `p` and the suffix last occurring at `q` at or after
      the prefix's end, `enum_name<T, E>` yields exactly the text between them. */
  lemma EnumMemberSliceFound(signature: string, prefix: string, suffix: string, p: nat, q: nat)
    requires |signature| < NPos
    requires OccursAt(signature, prefix, p) && forall j: nat :: j < p ==> !OccursAt(signature, prefix, j)
    requires OccursAt(signature, suffix, q) && forall j: nat :: q < j ==> !OccursAt(signature, suffix, j)
    requires p + |prefix| <= q
    ensures EnumMemberSlice(signature, prefix, suffix) == Some(signature[p + |prefix|..q])
  {
    FindFirst(signature, prefix, p);
    assert Contains(signature, suffix);
    assert RFind(signature, suffix) == q;
  }

  /** A missing prefix is not detected: `npos + prefix.size()` wraps round to
      `prefix.size() - 1`, and the slice starts there. */
  lemma TypeNameSliceMissingPrefix(signature: string, prefix: string, suffix: string, q: nat)
    requires |signature| < NPos
    requires |prefix| > 0 && !Contains(signature, prefix)
    requires OccursAt(signature, suffix, q) && forall j: nat :: j < q ==> !OccursAt(signature, suffix, j)
    requires |prefix| - 1 <= q
    ensures TypeNameSlice(signature, prefix, suffix) == Some(signature[|prefix| - 1..q])
  {
    assert FindFrom(signature, prefix, 0).None?;
    FindFirst(signature, suffix, q);
    var start := |prefix| - 1;
    assert NPos + |prefix| == SizeModulus + start;
    assert (Find(signature, prefix) + |prefix|) % SizeModulus == start;
    assert (q - start) % SizeModulus == q - start;
    assert SubStr(signature, start, q - start) == Some(signature[start..q]);
  }

  /** A name without spaces passes through `RemoveSpaces` unchanged. */
  lemma {:induction false} RemoveSpacesKeepsSpaceless(s: string)
    requires ' ' !in s
    ensures RemoveSpaces(s) == s
  {
    if s != [] {
      assert ' ' !in s[..|s| - 1];
      RemoveSpacesKeepsSpaceless(s[..|s| - 1]);
    }
  }

  /** The result of `type_name` does not contain the long string spelling when that spelling
      has a space (it cannot, having no space itself), nor when the sliced name has no space:
      then removing the spaces changes nothing after the replace loop. */
  lemma TypeNameNormalised(isStdString: bool, sliced: string, stn: string)
    requires |stn| > |StdStringName|
    ensures ' ' in stn ==> !Contains(TypeNameOf(isStdString, sliced, stn), stn)
    ensures ' ' !in sliced ==> !Contains(TypeNameOf(isStdString, sliced, stn), stn)
  {
    if !isStdString && ' ' !in sliced {
      ReplaceAllKeepsSpaceless(sliced, stn);
      RemoveSpacesKeepsSpaceless(ReplaceAll(sliced, stn));
    }
  }

  /** The replace loop only puts in `std::string`, which has no space. */
  lemma {:induction false} ReplaceAllKeepsSpaceless(name: string, stn: string)
    requires |stn| > |StdStringName| && ' ' !in name
    ensures ' ' !in ReplaceAll(name, stn)
    decreases |name|
  {
    match FindFrom(name, stn, 0)
    case None =>
    case Some(i) =>
      var next := name[..i] + StdStringName + name[i + |stn|..];
      assert ' ' !in StdStringName;
      assert forall c :: c in next ==> c in name[..i] || c in StdStringName || c in name[i + |stn|..];
      ReplaceAllKeepsSpaceless(next, stn);
  }

  /** An ordinary name, free of spaces and of the long string spelling, is returned as it is. */
  lemma TypeNameKeepsPlainName(sliced: string, stn: string)
    requires |stn| > |StdStringName|
    requires ' ' !in sliced && !Contains(sliced, stn)
    ensures TypeNameOf(false, sliced, stn) == sliced
  {
    assert FindFrom(sliced, stn, 0).None?;
    RemoveSpacesKeepsSpaceless(sliced);
  }
}
