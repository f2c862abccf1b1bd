/** The representation engine `repr` (trabfa/bscpp.hpp:116-239, 161-173) and the container
    body `repr_iter` (trabfa/bscpp.hpp:381-393). The dispatch on the kind of value is the
    function `Repr`; the two loops that write items with a separator into an
    `std::ostringstream` are the methods `ReprIter` and `ReprMap`, proved to produce what
    `Repr` says. */
module Repr {
  import opened Values
  import opened Text
  import opened Names
  import opened Equality

  /** A container body: `{`, the rendered items separated by `, `, `}`. */
  function Braced(parts: seq<string>): (r: string)
    ensures |r| >= 2 && r[0] == '{' && r[|r| - 1] == '}'
    ensures parts == [] ==> r == "{}"
  {
    "{" + Join(parts, ", ") + "}"
  }

  /** A `char[N]` whose last element is the terminating NUL: the header reads it as a C
      string, whose text ends before that NUL. */
  predicate IsCString(cs: string): (r: bool)
    ensures r ==> |CStringText(cs)| < |cs|
  {
    |cs| > 0 && cs[|cs| - 1] == '\0'
  }

  /** What precedes the body of a sequence-like container: nothing for a built-in array,
      the container type with its element type (and size, for `std::array`) otherwise. */
  function ContainerLabel(kind: SeqKind, elemType: string, size: nat): (r: string)
    ensures r == [] <==> kind == CArray
    ensures kind != CArray ==> |r| >= 7 && r[..5] == "std::" && r[|r| - 2..] == "> "
  {
    match kind
    case CArray => ""
    case StdArray => "std::array<" + elemType + ", " + IntToString(size) + "> "
    case Vector => "std::vector<" + elemType + "> "
    case Set => "std::set<" + elemType + "> "
  }

  /** A character between single quotes. */
  function CharRepr(c: char): (r: string)
    ensures |r| == 3 && r[1] == c
  {
    "'" + [c] + "'"
  }

  /** The characters of a char array rendered one by one. */
  function CharReprs(cs: string): (r: seq<string>)
    ensures |r| == |cs| && forall k :: 0 <= k < |cs| ==> r[k] == CharRepr(cs[k])
  {
    if cs == [] then [] else [CharRepr(cs[0])] + CharReprs(cs[1..])
  }

  function Repr(v: Value): (r: string)
    requires WellFormed(v)
    ensures r != []
    decreases v
  {
    match v
    case Char(c) => CharRepr(c)
    case Int(n) => IntToString(n)
    case Bool(b) => if b then "true" else "false"
    case Str(s) => "\"" + s + "\""
    case CharPtr(s, _) => "\"" + s + "\""
    case CharArray(cs, _) =>
      if IsCString(cs) then "\"" + CStringText(cs) + "\"" else Braced(CharReprs(cs))
    case Enum(t, raw, members) => EnumName(t, members, raw)
    case Seq(kind, t, items) => ContainerLabel(kind, t, |items|) + Braced(Reprs(items))
    case Map(k, w, _) => "std::map<" + k + ", " + w + "> " + Braced(EntryReprs(v, |v.entries|))
    case Struct(t, fields) => t + " " + Braced(Reprs(fields))
    case Opaque(t, _) => t + " {...}"
  }

  /** The rendered items, in order. */
  function Reprs(items: seq<Value>): (r: seq<string>)
    requires forall k :: 0 <= k < |items| ==> WellFormed(items[k])
    ensures |r| == |items|
    decreases items
  {
    if items == [] then []
    else Reprs(items[..|items| - 1]) + [Repr(items[|items| - 1])]
  }

  /** The first `n` map entries rendered as `{key, value}`. */
  function EntryReprs(m: Value, n: nat): (r: seq<string>)
    requires m.Map? && WellFormed(m) && n <= |m.entries|
    ensures |r| == n
    decreases m, n
  {
    if n == 0 then []
    else
      EntryReprs(m, n - 1) + [EntryRepr(m, n - 1)]
  }

  /** Item `k` of the renderings is the rendering of item `k`. */
  lemma {:induction false} ReprsAt(items: seq<Value>)
    requires forall k :: 0 <= k < |items| ==> WellFormed(items[k])
    ensures forall k :: 0 <= k < |items| ==> Reprs(items)[k] == Repr(items[k])
  {
    if items != [] {
      var n := |items| - 1;
      ReprsAt(items[..n]);
      assert forall k :: 0 <= k < n ==> items[..n][k] == items[k];
    }
  }

  /** Entry `k` of the rendered entries is entry `k` of the map rendered as `{key, value}`. */
  lemma {:induction false} EntryReprsAt(m: Value, n: nat)
    requires m.Map? && WellFormed(m) && n <= |m.entries|
    ensures forall k :: 0 <= k < n ==> EntryReprs(m, n)[k] == EntryRepr(m, k)
  {
    if n > 0 {
      EntryReprsAt(m, n - 1);
    }
  }

  /** Entry `i` of a map as the map overload writes it: `{key, value}`. */
  function EntryRepr(m: Value, i: nat): string
    requires m.Map? && WellFormed(m) && i < |m.entries|
    decreases m, 0
  {
    "{" + Repr(m.entries[i].0) + ", " + Repr(m.entries[i].1) + "}"
  }

  /** A map entry is written as one braced item whose first part is the key's `repr`. */
  lemma EntryReprBraced(m: Value, i: nat)
    requires m.Map? && WellFormed(m) && i < |m.entries|
    ensures var e := EntryRepr(m, i);
            |e| >= 4 && e[0] == '{' && e[|e| - 1] == '}' && Repr(m.entries[i].0) <= e[1..]
  {
    var k := Repr(m.entries[i].0);
    var e := EntryRepr(m, i);
    assert e == "{" + (k + (", " + Repr(m.entries[i].1) + "}"));
  }

  /** `repr_iter`: `{`, then each item's `repr` preceded by the separator, which is empty
      before the first item and `, ` after it, then `}`. */
  method ReprIter(items: seq<Value>) returns (out: string)
    requires forall k :: 0 <= k < |items| ==> WellFormed(items[k])
    ensures out == Braced(Reprs(items))
    ensures items == [] ==> out == "{}"
  {
    ghost var parts := Reprs(items);
    ReprsAt(items);
    out := "{";
    var sep := "";
    for i := 0 to |items|
      invariant out == "{" + Join(parts[..i], ", ")
      invariant sep == if i == 0 then "" else ", "
    {
      var r := Repr(items[i]);
      JoinStep("{", parts, i, ", ");
      out := out + sep + r;
      sep := ", ";
    }
    assert parts[..|items|] == parts;
    out := out + "}";
  }

  /** The map overload of `repr`: the map type with its key and value types, then each entry
      as `{key, value}` with the same separator discipline as `repr_iter`. */
  method ReprMap(m: Value) returns (out: string)
    requires m.Map? && WellFormed(m)
    ensures out == Repr(m)
    ensures m.entries == [] ==> out == "std::map<" + m.keyType + ", " + m.valueType + "> {}"
  {
    var header := "std::map<" + m.keyType + ", " + m.valueType + "> ";
    out := header + "{";
    var sep := "";
    for i := 0 to |m.entries|
      invariant out == header + "{" + Join(EntryReprs(m, i), ", ")
      invariant sep == if i == 0 then "" else ", "
    {
      var item := EntryRepr(m, i);
      JoinAppend(EntryReprs(m, i), item, ", ");
      out := out + sep + item;
      sep := ", ";
    }
    out := out + "}";
    MapReprShape(m);
  }

  lemma MapReprShape(m: Value)
    requires m.Map? && WellFormed(m)
    ensures Repr(m) == "std::map<" + m.keyType + ", " + m.valueType + "> " + "{" + Join(EntryReprs(m, |m.entries|), ", ") + "}"
  {
  }

  /** An empty container renders as its label followed by `{}` (a built-in array is never
      empty). */
  lemma EmptyContainerRepr(kind: SeqKind, elemType: string)
    requires kind != CArray
    ensures Repr(Seq(kind, elemType, [])) == ContainerLabel(kind, elemType, 0) + "{}"
    ensures Repr(Map(elemType, elemType, [])) == "std::map<" + elemType + ", " + elemType + "> {}"
  {
  }

  /** A string literal, a `char` array ending in its NUL, renders exactly like the text it
      holds does as a `std::string`, or as a `const char*` pointing at it. */
  lemma CStringLiteralRepr(s: string, addr: nat)
    requires '\0' !in s
    ensures Repr(CharArray(s + "\0", addr)) == Repr(Str(s))
    ensures Repr(CharPtr(s, addr)) == Repr(Str(s))
  {
    CStringTextOfLiteral(s);
  }

  /** A char array without a terminating NUL renders as its characters in braces. */
  lemma CharArrayRepr(cs: string, addr: nat)
    requires |cs| > 0 && cs[|cs| - 1] != '\0'
    ensures Repr(CharArray(cs, addr)) == Braced(CharReprs(cs))
  {
    assert !IsCString(cs);
  }

  /** Text is written between quotes without escaping, so two vectors that do not compare
      equal can render identically: one item holding `a", "b` and the two items `a` and
      `b`. */
  lemma UnescapedTextIsAmbiguous()
    ensures var one := Seq(Vector, "std::string", [Str("a\", \"b")]);
            var two := Seq(Vector, "std::string", [Str("a"), Str("b")]);
            !IsEq(one, two) && Repr(one) == Repr(two)
  {
    ReprsOfStrs("a\", \"b", "");
    ReprsOfStrs("a", "b");
    JoinAppend(["\"a\""], "\"b\"", ", ");
    assert ["\"a\""] + ["\"b\""] == ["\"a\"", "\"b\""];
    QuotesJoined();
    SeqReprShape(Vector, "std::string", [Str("a\", \"b")]);
    SeqReprShape(Vector, "std::string", [Str("a"), Str("b")]);
  }

  /** Vectors of one and of two texts render item by item as the quoted texts. */
  lemma ReprsOfStrs(x: string, y: string)
    ensures Reprs([Str(x)]) == ["\"" + x + "\""]
    ensures Reprs([Str(x), Str(y)]) == ["\"" + x + "\"", "\"" + y + "\""]
  {
    ReprsAt([Str(x)]);
    ReprsAt([Str(x), Str(y)]);
    StrRepr(x);
    StrRepr(y);
  }

  /** The quoted text `a", "b` reads the same as the quoted `a` and `b` joined by `, `. */
  lemma QuotesJoined()
    ensures "\"" + "a\", \"b" + "\"" == "\"a\"" + ", " + "\"b\""
    ensures "\"" + "a" + "\"" == "\"a\"" && "\"" + "b" + "\"" == "\"b\""
  {
  }

  lemma StrRepr(s: string)
    ensures Repr(Str(s)) == "\"" + s + "\""
  {
  }

  /** A character renders between single quotes, an integer as its decimal text, a bool as
      `true` or `false` (`std::boolalpha`). */
  lemma ScalarReprShape(c: char, n: int, b: bool)
    ensures Repr(Char(c)) == "'" + [c] + "'"
    ensures Repr(Int(n)) == IntToString(n)
    ensures Repr(Bool(b)) == if b then "true" else "false"
  {
  }

  /** An enumerator renders as `Type::Member` for raw values 0 to 10 and as `?` otherwise. */
  lemma EnumReprShape(t: string, raw: int, members: seq<string>)
    requires |members| == EnumCandidates
    ensures 0 <= raw <= 10 ==> Repr(Enum(t, raw, members)) == t + "::" + members[raw]
    ensures !(0 <= raw <= 10) ==> Repr(Enum(t, raw, members)) == "?"
  {
  }

  /** A standard-layout aggregate renders as its type name, a space, then its fields'
      renderings braced and separated by `, `. */
  lemma StructReprShape(t: string, fields: seq<Value>)
    requires WellFormed(Struct(t, fields))
    ensures Repr(Struct(t, fields)) == t + " " + Braced(Reprs(fields))
  {
  }

  /** A type that is not standard-layout renders as its type name followed by ` {...}`,
      whatever its fields. */
  lemma OpaqueReprShape(t: string, fields: seq<Value>)
    requires WellFormed(Opaque(t, fields))
    ensures Repr(Opaque(t, fields)) == t + " {...}"
  {
  }

  lemma SeqReprShape(kind: SeqKind, elemType: string, items: seq<Value>)
    requires kind != CArray
    requires forall k :: 0 <= k < |items| ==> WellFormed(items[k])
    ensures Repr(Seq(kind, elemType, items)) == ContainerLabel(kind, elemType, |items|) + Braced(Reprs(items))
  {
  }

  /** A value compared with a character is `is_eq` to it only if it is that character. */
  lemma IsEqChar(x: Value, y: Value)
    requires IsEq(x, y) && (x.Char? || y.Char?)
    ensures x == y
  {
  }

  /** The two engines agree: values of the same type that `is_eq` relates render to the same
      text. (The converse fails, see `UnescapedTextIsAmbiguous`.) */
  lemma {:induction false} IsEqImpliesSameRepr(a: Value, b: Value)
    requires WellFormed(a) && WellFormed(b) && Aligned(a, b) && IsEq(a, b)
    ensures Repr(a) == Repr(b)
    decreases a
  {
    match a
    case Seq(kind, t, xs) =>
      ItemsEqIff(xs, b.items);
      ItemsSameRepr(xs, b.items);
    case Struct(_, fs) =>
      ItemsEqIff(fs, b.fields);
      ItemsSameRepr(fs, b.fields);
    case Map(_, _, es) =>
      EntriesEqIff(a, 0, b.entries);
      EntriesSameRepr(a, b, |es|);
    case _ =>
  }

  /** Text operands of different types that `is_eq` relates through the `std::string` overload
      render to the same text, provided every char array among them ends in its NUL: both
      sides then print their text between double quotes. */
  lemma TextIsEqImpliesSameRepr(a: Value, b: Value)
    requires IsText(a) && IsText(b) && !ComparedByAddress(a, b)
    requires WellFormed(a) && WellFormed(b)
    requires a.CharArray? ==> IsCString(a.chars)
    requires b.CharArray? ==> IsCString(b.chars)
    requires IsEq(a, b)
    ensures Repr(a) == Repr(b)
  {
    TextEqByContent(a, b);
    assert Repr(a) == "\"" + TextOf(a) + "\"";
    assert Repr(b) == "\"" + TextOf(b) + "\"";
  }

  /** Without the NUL at its end the agreement fails: `std::string("ab")` is `is_eq` to the
      array `{'a', 'b', '\0', 'c'}`, whose text stops at the NUL, yet the array renders
      element by element. */
  lemma UnterminatedArrayReprDiffers(addr: nat)
    ensures IsEq(Str("ab"), CharArray("ab\0c", addr))
    ensures Repr(Str("ab")) != Repr(CharArray("ab\0c", addr))
  {
    var cs := "ab\0c";
    assert CStringText(cs) == "ab" by {
      assert cs[1..] == "b\0c" && cs[1..][1..] == "\0c";
    }
    assert !IsCString(cs);
    assert Repr(Str("ab"))[0] == '"';
    assert Repr(CharArray(cs, addr))[0] == '{';
  }

  lemma {:induction false} ItemsSameRepr(xs: seq<Value>, ys: seq<Value>)
    requires |xs| == |ys|
    requires forall k :: 0 <= k < |xs| ==> WellFormed(xs[k]) && WellFormed(ys[k])
    requires forall k :: 0 <= k < |xs| ==> Aligned(xs[k], ys[k]) && IsEq(xs[k], ys[k])
    ensures Reprs(xs) == Reprs(ys)
    decreases xs
  {
    if xs != [] {
      var n := |xs| - 1;
      IsEqImpliesSameRepr(xs[n], ys[n]);
      ItemsSameRepr(xs[..n], ys[..n]);
    }
  }

  lemma {:induction false} EntriesSameRepr(a: Value, b: Value, n: nat)
    requires a.Map? && b.Map? && WellFormed(a) && WellFormed(b) && Aligned(a, b)
    requires n <= |a.entries| == |b.entries|
    requires forall k :: 0 <= k < |a.entries| ==>
               Lookup(b.entries, a.entries[k].0).Some? &&
               IsEq(a.entries[k].1, Lookup(b.entries, a.entries[k].0).value)
    ensures EntryReprs(a, n) == EntryReprs(b, n)
    decreases a, n
  {
    if n > 0 {
      var k := n - 1;
      LookupOwnKey(b.entries, k);
      assert a.entries[k].0 == b.entries[k].0;
      IsEqImpliesSameRepr(a.entries[k].1, b.entries[k].1);
      EntriesSameRepr(a, b, k);
    }
  }
}
