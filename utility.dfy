/**
 * Generic helpers of include/utility.hpp: the bidirectional enum <-> value
 * lookup that backs the frame-rate tables (map_enum_values / enum_map), the
 * string builders duplicate_string and duplicate_with_prefix, and
 * static_conditional_value.
 */
module Utility {

  datatype Option<T> = None | Some(value: T)

  /** Index of the first occurrence of `x` in `s`, or `|s|` when there is none. */
  function IndexOf<T(==)>(s: seq<T>, x: T): (k: nat)
    ensures k <= |s|
    ensures k < |s| ==> s[k] == x
    ensures forall j :: 0 <= j < k ==> s[j] != x
  {
    if s == [] then 0
    else if s[0] == x then 0
    else 1 + IndexOf(s[1..], x)
  }

  /** `parts` joined with `sep` between consecutive elements. */
  function Join(parts: seq<string>, sep: string): string
  {
    if |parts| == 0 then ""
    else if |parts| == 1 then parts[0]
    else parts[0] + sep + Join(parts[1..], sep)
  }

  lemma {:induction false} JoinSnoc(parts: seq<string>, x: string, sep: string)
    requires |parts| >= 1
    ensures Join(parts + [x], sep) == Join(parts, sep) + sep + x
  {
    if |parts| == 1 {
      assert parts + [x] == [parts[0], x];
      assert ([parts[0], x])[1..] == [x];
    } else {
      assert (parts + [x])[1..] == parts[1..] + [x];
      JoinSnoc(parts[1..], x, sep);
    }
  }

  /**
   * The fields of `s` between occurrences of `d`, as std::ranges::split_view
   * yields them: an empty input has no fields, a trailing delimiter ends in an
   * empty field.
   */
  function Split(s: string, d: char): (fields: seq<string>)
    ensures s == [] ==> fields == []
    ensures s != [] ==> |fields| >= 1
    ensures Join(fields, [d]) == s
    ensures forall k :: 0 <= k < |fields| ==> d !in fields[k]
  {
    if s == [] then [] else SplitFields(s, d)
  }

  function SplitFields(s: string, d: char): (fields: seq<string>)
    ensures |fields| >= 1
    ensures Join(fields, [d]) == s
    ensures forall k :: 0 <= k < |fields| ==> d !in fields[k]
    decreases |s|
  {
    var k := IndexOf(s, d);
    if k == |s| then [s]
    else
      var rest := SplitFields(s[k + 1..], d);
      assert s == s[..k] + [d] + s[k + 1..];
      assert ([s[..k]] + rest)[1..] == rest;
      [s[..k]] + rest
  }

  /** `IndexOf` of a delimiter placed right after a stretch without it. */
  lemma IndexOfAfterPrefix(a: string, d: char, b: string)
    requires d !in a
    ensures IndexOf(a + [d] + b, d) == |a|
    ensures IndexOf(a, d) == |a|
  {
    var s := a + [d] + b;
    assert s[|a|] == d;
  }

  /** Splitting undoes joining, for a non-empty result of fields without the delimiter. */
  lemma {:induction false} SplitJoin(fields: seq<string>, d: char)
    requires |fields| >= 1
    requires forall k :: 0 <= k < |fields| ==> d !in fields[k]
    requires Join(fields, [d]) != []
    ensures Split(Join(fields, [d]), d) == fields
  {
    SplitFieldsJoin(fields, d);
  }

  lemma {:induction false} SplitFieldsJoin(fields: seq<string>, d: char)
    requires |fields| >= 1
    requires forall k :: 0 <= k < |fields| ==> d !in fields[k]
    ensures SplitFields(Join(fields, [d]), d) == fields
    decreases |fields|
  {
    if |fields| == 1 {
      IndexOfAfterPrefix(fields[0], d, []);
    } else {
      var head, rest := fields[0], fields[1..];
      assert d !in head;
      var tail := Join(rest, [d]);
      var s := head + [d] + tail;
      assert Join(fields, [d]) == s;
      IndexOfAfterPrefix(head, d, tail);
      assert s[|head| + 1..] == tail && s[..|head|] == head;
      assert SplitFields(s, d) == [head] + SplitFields(tail, d);
      SplitFieldsJoin(rest, d);
      assert fields == [head] + rest;
    }
  }

  /** Four fields without `d`, joined with `d`, split back into the same four fields. */
  lemma SplitOfFour(a: string, b: string, c: string, e: string, d: char)
    requires d !in a && d !in b && d !in c && d !in e
    ensures Split(a + [d] + b + [d] + c + [d] + e, d) == [a, b, c, e]
  {
    var fields := [a, b, c, e];
    JoinOfFour(a, b, c, e, [d]);
    assert forall k :: 0 <= k < 4 ==> d !in fields[k];
    SplitJoin(fields, d);
  }

  lemma JoinOfFour(a: string, b: string, c: string, e: string, sep: string)
    ensures Join([a, b, c, e], sep) == a + sep + b + sep + c + sep + e
  {
    assert [c, e][1..] == [e];
    assert Join([c, e], sep) == c + sep + e;
    assert [b, c, e][1..] == [c, e];
    assert Join([b, c, e], sep) == b + sep + c + sep + e;
    assert [a, b, c, e][1..] == [b, c, e];
  }

  /** Splitting at the first delimiter: the stretch before it, then the fields of the rest. */
  lemma SplitCons(a: string, d: char, b: string)
    requires d !in a && b != []
    ensures Split(a + [d] + b, d) == [a] + Split(b, d)
  {
    var s := a + [d] + b;
    IndexOfAfterPrefix(a, d, b);
    assert s[..|a|] == a;
    assert s[|a| + 1..] == b;
  }

  /** Two fields without `d`, joined with `d`, split back into the same two fields. */
  lemma SplitOfTwo(a: string, b: string, d: char)
    requires d !in a && d !in b
    ensures Split(a + [d] + b, d) == [a, b]
  {
    var fields := [a, b];
    assert fields[1..] == [b];
    assert Join(fields, [d]) == a + [d] + b;
    SplitJoin(fields, d);
  }

  // ---------------------------------------------------------------------
  // duplicate_string / duplicate_with_prefix
  // ---------------------------------------------------------------------

  /** `base` repeated `n` times with `sep` between the copies; empty for n <= 0. */
  function Repeated(base: string, n: int, sep: string): (r: string)
    ensures n <= 0 ==> r == ""
    ensures n >= 1 ==> |r| == n * |base| + (n - 1) * |sep|
    decreases n
  {
    if n <= 0 then ""
    else if n == 1 then base
    else Repeated(base, n - 1, sep) + sep + base
  }

  /** The repeated string is the join of n copies of `base`: copies separated by exactly n-1 separators. */
  lemma {:induction false} RepeatedIsJoinOfCopies(base: string, n: nat, sep: string)
    ensures Repeated(base, n, sep) == Join(seq(n, _ => base), sep)
    decreases n
  {
    if n == 0 {
    } else if n == 1 {
      assert seq(1, _ => base) == [base];
    } else {
      RepeatedIsJoinOfCopies(base, n - 1, sep);
      assert seq(n, _ => base) == seq(n - 1, _ => base) + [base];
      JoinSnoc(seq(n - 1, _ => base), base, sep);
    }
  }

  /** duplicate_string: each pass appends one copy, then the separator unless it was the last copy. */
  method DuplicateString(base: string, repeat: int, separator: string) returns (str: string)
    ensures str == Repeated(base, repeat, separator)
  {
    str := "";
    var count := 0;
    while count < repeat
      invariant 0 <= count && (repeat >= 0 ==> count <= repeat)
      invariant repeat < 0 ==> count == 0
      invariant str == Repeated(base, count, separator) + (if 0 < count < repeat then separator else "")
      decreases repeat - count
    {
      str := str + base;
      if count + 1 < repeat {
        str := str + separator;
      }
      count := count + 1;
    }
  }

  method DuplicateWithPrefix(prefix: string, base: string, size: int) returns (str: string)
    ensures str == prefix + Repeated(base, size, " ")
    ensures size <= 0 ==> str == prefix
  {
    var copies := DuplicateString(base, size, " ");
    str := prefix + copies;
  }

  // ---------------------------------------------------------------------
  // static_conditional_value
  // ---------------------------------------------------------------------

  function StaticConditionalValue<V>(p: bool, whenTrue: V, whenFalse: V): (r: V)
    ensures p ==> r == whenTrue
    ensures !p ==> r == whenFalse
  {
    if p then whenTrue else whenFalse
  }

  // ---------------------------------------------------------------------
  // map_enum_values / enum_map
  // ---------------------------------------------------------------------

  /**
   * The data captured by the two lookup lambdas: every enumerator in
   * declaration order, the mapped values, and the two fallbacks.
   */
  datatype EnumMap<E, V> = EnumMap(options: seq<E>, values: seq<V>, defaultEnum: E, defaultOut: V)

  /** enum_map's static_assert: one mapping fewer than there are enumerators. */
  predicate WellFormed<E, V>(m: EnumMap<E, V>)
  {
    |m.options| >= 1 && |m.values| == |m.options| - 1
  }

  /**
   * The forward lambda exactly as written: `values[i]` for the first enumerator
   * equal to `x`, `default_out` when none is equal, and `None` where `i` is past
   * the end of `values` (the read of the source is then out of bounds).
   */
  function ForwardAsWritten<E(==), V>(m: EnumMap<E, V>, x: E): (r: Option<V>)
    requires WellFormed(m)
    ensures r.None? <==> |m.values| <= IndexOf(m.options, x) < |m.options|
  {
    var k := IndexOf(m.options, x);
    if k == |m.options| then Some(m.defaultOut)
    else if k < |m.values| then Some(m.values[k])
    else None
  }

  /** The forward lookup with the unmapped last enumerator sent to `default_out`. */
  function Forward<E(==), V>(m: EnumMap<E, V>, x: E): (r: V)
    requires WellFormed(m)
    ensures forall k :: 0 <= k < |m.values| && m.options[k] == x && (forall j :: 0 <= j < k ==> m.options[j] != x)
              ==> r == m.values[k]
    ensures (forall k :: 0 <= k < |m.values| ==> m.options[k] != x) ==> r == m.defaultOut
    ensures ForwardAsWritten(m, x).Some? ==> r == ForwardAsWritten(m, x).value
  {
    var k := IndexOf(m.options, x);
    if k < |m.values| then m.values[k] else m.defaultOut
  }

  /** The reverse lookup: `options[i]` for the first value equal to `y`, else `default_enum`. */
  function Reverse<E, V(==)>(m: EnumMap<E, V>, y: V): (r: E)
    requires WellFormed(m)
    ensures forall k :: 0 <= k < |m.values| && m.values[k] == y && (forall j :: 0 <= j < k ==> m.values[j] != y)
              ==> r == m.options[k]
    ensures y !in m.values ==> r == m.defaultEnum
  {
    var k := IndexOf(m.values, y);
    if k < |m.values| then m.options[k] else m.defaultEnum
  }

  /**
   * The forward lambda's loop: a linear search with the counter `i`. Where the
   * match lies past the end of `values` it returns `default_out` (see Forward).
   */
  method LookupForward<E(==), V>(m: EnumMap<E, V>, x: E) returns (r: V)
    requires WellFormed(m)
    ensures r == Forward(m, x)
  {
    var i := 0;
    while i < |m.options|
      invariant 0 <= i <= |m.options|
      invariant forall j :: 0 <= j < i ==> m.options[j] != x
    {
      if m.options[i] == x {
        if i < |m.values| {
          return m.values[i];
        }
        return m.defaultOut;
      }
      i := i + 1;
    }
    return m.defaultOut;
  }

  /** The reverse lambda's loop: a linear search over the values. */
  method LookupReverse<E, V(==)>(m: EnumMap<E, V>, y: V) returns (r: E)
    requires WellFormed(m)
    ensures r == Reverse(m, y)
  {
    var i := 0;
    while i < |m.values|
      invariant 0 <= i <= |m.values|
      invariant forall j :: 0 <= j < i ==> m.values[j] != y
    {
      if m.values[i] == y {
        return m.options[i];
      }
      i := i + 1;
    }
    return m.defaultEnum;
  }

  /** No two entries of `s` are equal. */
  predicate Distinct<T(==)>(s: seq<T>)
  {
    forall j, k :: 0 <= j < k < |s| ==> s[j] != s[k]
  }

  /**
   * With distinct enumerators and distinct values, the reverse lookup undoes the
   * forward lookup on every mapped enumerator.
   */
  lemma ReverseUndoesForward<E, V>(m: EnumMap<E, V>, k: nat)
    requires WellFormed(m) && Distinct(m.options) && Distinct(m.values)
    requires k < |m.values|
    ensures Reverse(m, Forward(m, m.options[k])) == m.options[k]
  {
    var x := m.options[k];
    assert IndexOf(m.options, x) == k;
    assert Forward(m, x) == m.values[k];
    assert IndexOf(m.values, m.values[k]) == k;
  }

  /** With distinct values the forward lookup undoes the reverse lookup on every mapped value. */
  lemma ForwardUndoesReverse<E, V>(m: EnumMap<E, V>, k: nat)
    requires WellFormed(m) && Distinct(m.options) && Distinct(m.values)
    requires k < |m.values|
    ensures Forward(m, Reverse(m, m.values[k])) == m.values[k]
  {
    var y := m.values[k];
    assert IndexOf(m.values, y) == k;
    assert Reverse(m, y) == m.options[k];
    assert IndexOf(m.options, m.options[k]) == k;
  }
}
