/** The values the harness compares and renders. In the C++ header the choice of
    rendering and comparison is made at compile time from the static type of a value;
    here each kind of type the header distinguishes is a constructor, and the labels that
    the header obtains from `type_name<T>()` are carried as already-resolved strings. */
module Values {
  import opened Wrappers

  /** The sequence-like containers: a built-in array `T[N]` of any element type but `char`,
      `std::array<T, N>`, `std::vector<T>` and `std::set<T>` (whose items are kept in
      iteration order). */
  datatype SeqKind = CArray | StdArray | Vector | Set

  datatype Value =
    | Char(c: char)
      /** any other integral type (`int`, `long`, `unsigned`, ...) */
    | Int(i: int)
    | Bool(b: bool)
      /** a `std::string` or a `std::string_view`. The content comparison `TextEq` gives a
          `Str` against a C string holds for `std::string` only: a `std::string_view` does
          not convert implicitly to `std::string`, so it reaches no `is_eq` against a
          `const char*`, a char array or a `std::string`, and such a check is one whose
          operands are not comparable. */
    | Str(s: string)
      /** a `const char*` holding the address `addr` of the NUL-terminated text `s` */
    | CharPtr(s: string, addr: nat)
      /** a built-in `char[N]` at the address `addr`; `chars` is its N characters, NULs
          included */
    | CharArray(chars: string, addr: nat)
      /** an enumerator of type `typeName`; `members[n]` is the text `enum_name<T, n>()` yields
          for the candidate raw value n, 0 <= n <= 10 */
    | Enum(typeName: string, raw: int, members: seq<string>)
    | Seq(kind: SeqKind, elemType: string, items: seq<Value>)
      /** a `std::map<K, V>`; the entries in iteration order */
    | Map(keyType: string, valueType: string, entries: seq<(Value, Value)>)
      /** a standard-layout aggregate and its fields in declaration order */
    | Struct(typeName: string, fields: seq<Value>)
      /** a type that is not standard-layout, such as an aggregate with a reference member:
          `repr` prints only its name, while `is_eq` still compares the `fields` that
          `num_members` counts and a structured binding yields */
    | Opaque(typeName: string, fields: seq<Value>)

  /** The operands the `std::string` overload of `is_eq` accepts through a conversion. */
  predicate IsText(v: Value) {
    v.Str? || v.CharPtr? || v.CharArray?
  }

  /** The characters a `std::string` or `std::string_view` built from a char array sees: those
      before the first NUL. */
  function CStringText(cs: string): (r: string)
    ensures r <= cs && '\0' !in r
    ensures |r| < |cs| ==> cs[|r|] == '\0'
  {
    if cs == [] || cs[0] == '\0' then "" else [cs[0]] + CStringText(cs[1..])
  }

  /** The text a text-like operand converts to for the `std::string` overload of `is_eq`. */
  function TextOf(v: Value): string
    requires IsText(v)
  {
    match v
    case Str(s) => s
    case CharPtr(s, _) => s
    case CharArray(cs, _) => CStringText(cs)
  }

  /** Two text-like operands of one type that `is_eq` compares with `==` on the pointers:
      two `const char*`, or two char arrays of the same length. */
  predicate ComparedByAddress(a: Value, b: Value) {
    (a.CharPtr? && b.CharPtr?) || (a.CharArray? && b.CharArray? && |a.chars| == |b.chars|)
  }

  /** `a` and `b` are values of the same kind; text-like values count as one kind, since the
      `std::string` overload of `is_eq` takes any two of them. */
  predicate SameShape(a: Value, b: Value) {
    if IsText(a) then IsText(b)
    else
      match a
      case Char(_) => b.Char?
      case Int(_) => b.Int?
      case Bool(_) => b.Bool?
      case Enum(_, _, _) => b.Enum?
      case Seq(kind, _, _) => b.Seq? && b.kind == kind
      case Map(_, _, _) => b.Map?
      case Struct(_, _) => b.Struct?
      case Opaque(_, _) => b.Opaque?
      case _ => false
  }

  /** `num_members` probes for at most six initialisers. */
  const MaxFields := 6

  /** `enum_name` tries the raw values 0 through 10. */
  const EnumCandidates := 11

  predicate DistinctKeys(entries: seq<(Value, Value)>) {
    forall i, j :: 0 <= i < j < |entries| ==> entries[i].0 != entries[j].0
  }

  /** The values a program using the header can build and compile: a `const char*` points at
      a text without NUL, an array is not empty, enums come with all eleven candidate texts,
      map keys are unique, and an aggregate has at most six fields (with seven or more the
      six-name structured binding in `repr` and `is_eq` does not compile). A built-in array
      of `char` is a `CharArray`, never a `Seq`. */
  predicate WellFormed(v: Value)
    decreases v
  {
    match v
    case CharPtr(s, _) => '\0' !in s
    case CharArray(cs, _) => |cs| > 0
    case Enum(_, _, members) => |members| == EnumCandidates
    case Seq(kind, _, items) =>
      (kind == CArray ==> |items| > 0 && forall i :: 0 <= i < |items| ==> !items[i].Char?) &&
      forall i :: 0 <= i < |items| ==> WellFormed(items[i])
    case Map(_, _, entries) =>
      DistinctKeys(entries) &&
      forall i :: 0 <= i < |entries| ==> WellFormed(entries[i].0) && WellFormed(entries[i].1)
    case Struct(_, fields) =>
      |fields| <= MaxFields && forall i :: 0 <= i < |fields| ==> WellFormed(fields[i])
    case Opaque(_, fields) =>
      |fields| <= MaxFields && forall i :: 0 <= i < |fields| ==> WellFormed(fields[i])
    case _ => true
  }

  /** `m.count(key)` and `m.at(key)` together: the value stored under `key`, if any. */
  function Lookup(entries: seq<(Value, Value)>, key: Value): (r: Option<Value>)
    ensures r.None? <==> forall i :: 0 <= i < |entries| ==> entries[i].0 != key
    ensures r.Some? ==> exists i :: 0 <= i < |entries| && entries[i] == (key, r.value)
  {
    if entries == [] then None
    else if entries[0].0 == key then Some(entries[0].1)
    else Lookup(entries[1..], key)
  }

  /** With unique keys, looking up the key of an entry finds that entry's value. */
  lemma {:induction false} LookupOwnKey(entries: seq<(Value, Value)>, i: nat)
    requires DistinctKeys(entries) && i < |entries|
    ensures Lookup(entries, entries[i].0) == Some(entries[i].1)
  {
    if i > 0 {
      assert entries[0].0 != entries[i].0;
      var rest := entries[1..];
      assert DistinctKeys(rest) by {
        forall p, q | 0 <= p < q < |rest| ensures rest[p].0 != rest[q].0 {
          assert rest[p] == entries[p + 1] && rest[q] == entries[q + 1];
        }
      }
      LookupOwnKey(rest, i - 1);
    }
  }

  /** `a` and `b` have the same static type, so that one `is_eq` and one `repr` overload
      apply to both; in addition two maps list their keys in the same order, as two
      `std::map`s holding the same keys do, since they iterate in key order, and one address
      holds one text. */
  predicate Aligned(a: Value, b: Value)
    decreases a
  {
    match a
    case Char(_) => b.Char?
    case Int(_) => b.Int?
    case Bool(_) => b.Bool?
    case Str(_) => b.Str?
    case CharPtr(s, p) => b.CharPtr? && (b.addr == p ==> b.s == s)
    case CharArray(cs, p) => b.CharArray? && |b.chars| == |cs| && (b.addr == p ==> b.chars == cs)
    case Enum(t, _, members) => b.Enum? && b.typeName == t && b.members == members
    case Seq(kind, t, xs) =>
      b.Seq? && b.kind == kind && b.elemType == t &&
      forall k :: 0 <= k < |xs| && k < |b.items| ==> Aligned(xs[k], b.items[k])
    case Map(kt, vt, es) =>
      b.Map? && b.keyType == kt && b.valueType == vt &&
      forall k :: 0 <= k < |es| && k < |b.entries| ==>
        es[k].0 == b.entries[k].0 && Aligned(es[k].1, b.entries[k].1)
    case Struct(t, fs) =>
      b.Struct? && b.typeName == t &&
      forall k :: 0 <= k < |fs| && k < |b.fields| ==> Aligned(fs[k], b.fields[k])
    case Opaque(t, _) => b.Opaque? && b.typeName == t
  }
}
