/** String helpers with Python's semantics: `str.strip()`, `str.split(sep)`,
    `str.find`/`str.rfind`, `str(n)` for a natural number, and the ordering
    `sorted()` uses on `str` (lexicographic by code point). */
module Text {
  import opened Common

  /** The characters Python's `str.isspace()` accepts (and `str.strip()` removes). */
  predicate IsSpace(c: char)
  {
    ('\t' <= c <= '\r') || ('\U{1c}' <= c <= ' ') || c == '\U{85}' || c == '\U{a0}'
    || c == '\U{1680}' || ('\U{2000}' <= c <= '\U{200a}') || c == '\U{2028}' || c == '\U{2029}'
    || c == '\U{202f}' || c == '\U{205f}' || c == '\U{3000}'
  }

  predicate StartsWith(s: string, prefix: string)
  {
    |prefix| <= |s| && s[..|prefix|] == prefix
  }

  predicate EndsWith(s: string, suffix: string)
  {
    |suffix| <= |s| && s[|s| - |suffix|..] == suffix
  }

  /** How many whitespace characters `str.strip()` drops at the front. */
  function LeadingSpaces(s: string): (n: nat)
    ensures n <= |s|
  {
    if s != [] && IsSpace(s[0]) then 1 + LeadingSpaces(s[1..]) else 0
  }

  /** The leading run is whitespace, and the character after it is not. */
  lemma {:induction false} LeadingSpacesAre(s: string)
    ensures forall i :: 0 <= i < LeadingSpaces(s) ==> IsSpace(s[i])
    ensures LeadingSpaces(s) < |s| ==> !IsSpace(s[LeadingSpaces(s)])
  {
    if s != [] && IsSpace(s[0]) {
      var t := s[1..];
      LeadingSpacesAre(t);
      forall i | 0 < i < LeadingSpaces(s)
        ensures IsSpace(s[i])
      {
        assert s[i] == t[i - 1];
      }
      if LeadingSpaces(s) < |s| {
        assert s[LeadingSpaces(s)] == t[LeadingSpaces(t)];
      }
    }
  }

  /** How many whitespace characters `str.strip()` drops at the back. */
  function TrailingSpaces(s: string): (n: nat)
    ensures n <= |s|
  {
    if s != [] && IsSpace(s[|s| - 1]) then 1 + TrailingSpaces(s[..|s| - 1]) else 0
  }

  /** The trailing run is whitespace, and the character before it is not. */
  lemma {:induction false} TrailingSpacesAre(s: string)
    ensures forall i :: |s| - TrailingSpaces(s) <= i < |s| ==> IsSpace(s[i])
    ensures TrailingSpaces(s) < |s| ==> !IsSpace(s[|s| - 1 - TrailingSpaces(s)])
  {
    if s != [] && IsSpace(s[|s| - 1]) {
      var t := s[..|s| - 1];
      TrailingSpacesAre(t);
      forall i | |s| - TrailingSpaces(s) <= i < |s| - 1
        ensures IsSpace(s[i])
      {
        assert s[i] == t[i];
      }
      if TrailingSpaces(s) < |s| {
        assert s[|s| - 1 - TrailingSpaces(s)] == t[|t| - 1 - TrailingSpaces(t)];
      }
    }
  }

  /** `str.strip()`: the longest infix of `s` that neither starts nor ends
      with whitespace, everything around it being whitespace. */
  function Strip(s: string): (r: string)
    ensures LeadingSpaces(s) + |r| <= |s|
    ensures r == s[LeadingSpaces(s)..LeadingSpaces(s) + |r|]
    ensures forall i :: 0 <= i < LeadingSpaces(s) ==> IsSpace(s[i])
    ensures forall i :: LeadingSpaces(s) + |r| <= i < |s| ==> IsSpace(s[i])
    ensures r == [] || (!IsSpace(r[0]) && !IsSpace(r[|r| - 1]))
  {
    LeadingSpacesAre(s);
    TrailingSpacesAre(s);
    var a := LeadingSpaces(s);
    if a == |s| then []
    else
      var b := TrailingSpaces(s);
      assert a < |s| - b by {
        assert !IsSpace(s[a]);
      }
      s[a..|s| - b]
  }

  /** A string already stripped is left alone. */
  lemma StripNoSpaceEnds(s: string)
    requires s == [] || (!IsSpace(s[0]) && !IsSpace(s[|s| - 1]))
    ensures Strip(s) == s
  {
  }

  /** `s.find(c)`: the first index holding `c`, if any. */
  function IndexOf(s: string, c: char): (r: Option<nat>)
    ensures r.None? <==> c !in s
    ensures r.Some? ==> r.value < |s| && s[r.value] == c && c !in s[..r.value]
  {
    if s == [] then None
    else if s[0] == c then Some(0)
    else match IndexOf(s[1..], c)
      case None => None
      case Some(i) => Some(i + 1)
  }

  /** `c` occurs in `s` exactly once. */
  predicate OccursOnce(s: string, c: char)
  {
    IndexOf(s, c).Some? && c !in s[IndexOf(s, c).value + 1..]
  }

  /** `s.split(sep)` has exactly two pieces when `sep` occurs exactly once. */
  lemma SplitOnTwo(s: string, sep: char)
    ensures |SplitOn(s, sep)| == 2 <==> OccursOnce(s, sep)
  {
    match IndexOf(s, sep)
    case None =>
    case Some(i) =>
      if sep in s[i + 1..] {
        assert |SplitOn(s[i + 1..], sep)| >= 2;
      }
  }

  /** `s.rfind(c)`: the last index holding `c`, if any. */
  function LastIndexOf(s: string, c: char): (r: Option<nat>)
    ensures r.None? <==> c !in s
    ensures r.Some? ==> r.value < |s| && s[r.value] == c && c !in s[r.value + 1..]
  {
    if s == [] then None
    else if s[|s| - 1] == c then Some(|s| - 1)
    else LastIndexOf(s[..|s| - 1], c)
  }

  /** `s.split(sep)`: the pieces between occurrences of `sep`, in order. */
  function SplitOn(s: string, sep: char): (parts: seq<string>)
    ensures |parts| >= 1
    decreases |s|
  {
    match IndexOf(s, sep)
    case None => [s]
    case Some(i) => [s[..i]] + SplitOn(s[i + 1..], sep)
  }

  /** No piece of `s.split(sep)` contains `sep`. */
  lemma {:induction false} SplitOnPiecesFree(s: string, sep: char)
    ensures forall i :: 0 <= i < |SplitOn(s, sep)| ==> sep !in SplitOn(s, sep)[i]
    decreases |s|
  {
    match IndexOf(s, sep)
    case None =>
    case Some(i) => SplitOnPiecesFree(s[i + 1..], sep);
  }

  /** `sep.join(parts)`. */
  function JoinWith(parts: seq<string>, sep: char): string
  {
    if |parts| <= 1 then (if parts == [] then "" else parts[0])
    else parts[0] + [sep] + JoinWith(parts[1..], sep)
  }

  /** Joining the pieces back with the separator gives the original string. */
  lemma {:induction false} SplitOnJoin(s: string, sep: char)
    ensures JoinWith(SplitOn(s, sep), sep) == s
    decreases |s|
  {
    match IndexOf(s, sep)
    case None =>
    case Some(i) =>
      var rest := s[i + 1..];
      SplitOnJoin(rest, sep);
      var parts := SplitOn(rest, sep);
      assert SplitOn(s, sep) == [s[..i]] + parts;
      JoinWithCons(s[..i], parts, sep);
      assert s == s[..i] + [sep] + rest;
  }

  /** One more piece in front adds it and a separator. */
  lemma JoinWithCons(x: string, parts: seq<string>, sep: char)
    requires parts != []
    ensures JoinWith([x] + parts, sep) == x + [sep] + JoinWith(parts, sep)
  {
    assert ([x] + parts)[1..] == parts;
  }

  /** Splitting at one separator splits the two sides independently. */
  lemma {:induction false} SplitOnConcat(a: string, sep: char, b: string)
    ensures SplitOn(a + [sep] + b, sep) == SplitOn(a, sep) + SplitOn(b, sep)
    decreases |a|
  {
    var k := IndexOf(a, sep);
    if k.None? {
      SplitOnConcatBase(a, sep, b);
    } else {
      SplitOnConcat(a[k.value + 1..], sep, b);
      SplitOnConcatStep(a, sep, b, k.value);
    }
  }

  lemma SplitOnConcatBase(a: string, sep: char, b: string)
    requires sep !in a
    ensures SplitOn(a + [sep] + b, sep) == SplitOn(a, sep) + SplitOn(b, sep)
  {
    var s := a + [sep] + b;
    assert s[..|a|] == a && s[|a|] == sep;
    FirstIndex(s, sep, |a|);
    assert s[|a| + 1..] == b;
    SplitOnFirst(s, sep, |a|);
    SplitOnNone(a, sep);
  }

  lemma SplitOnConcatStep(a: string, sep: char, b: string, i: nat)
    requires IndexOf(a, sep) == Some(i)
    requires SplitOn(a[i + 1..] + [sep] + b, sep) == SplitOn(a[i + 1..], sep) + SplitOn(b, sep)
    ensures SplitOn(a + [sep] + b, sep) == SplitOn(a, sep) + SplitOn(b, sep)
  {
    SplitOnUnfoldConcat(a, sep, b, i);
    SplitOnFirst(a, sep, i);
    ConcatAssoc([a[..i]], SplitOn(a[i + 1..], sep), SplitOn(b, sep));
  }

  lemma SplitOnUnfoldConcat(a: string, sep: char, b: string, i: nat)
    requires IndexOf(a, sep) == Some(i)
    ensures SplitOn(a + [sep] + b, sep) == [a[..i]] + SplitOn(a[i + 1..] + [sep] + b, sep)
  {
    var s := a + [sep] + b;
    assert s[..i] == a[..i];
    assert s[i + 1..] == a[i + 1..] + [sep] + b;
    FirstIndex(s, sep, i);
    SplitOnFirst(s, sep, i);
  }

  lemma ConcatAssoc<T>(p: seq<T>, q: seq<T>, r: seq<T>)
    ensures p + (q + r) == (p + q) + r
  {
  }

  /** A sequence is what precedes position `j`, the element there, and what follows. */
  lemma SplitAround<T>(p: seq<T>, j: nat)
    requires j < |p|
    ensures p == p[..j] + [p[j]] + p[j + 1..]
  {
  }

  /** A slice inside the left operand of a concatenation. */
  lemma SliceLeft<T>(p: seq<T>, q: seq<T>, i: nat, j: nat)
    requires i <= j <= |p|
    ensures (p + q)[i..j] == p[i..j]
  {
  }

  /** The slice of a concatenation that covers exactly its right operand. */
  lemma SliceRight<T>(p: seq<T>, q: seq<T>)
    ensures (p + q)[|p|..|p| + |q|] == q
  {
  }

  /** The first `k` elements start with the first one and go on with the
      first `k - 1` of the rest. */
  lemma PrefixTail<T>(s: seq<T>, k: nat)
    requires 1 <= k <= |s|
    ensures s[..k] != [] && s[..k][0] == s[0] && s[..k][1..] == s[1..][..k - 1]
  {
  }

  lemma SplitOnNone(s: string, sep: char)
    requires sep !in s
    ensures SplitOn(s, sep) == [s]
  {
  }

  /** One unfolding of `SplitOn` at the first separator. */
  lemma SplitOnFirst(s: string, sep: char, i: nat)
    requires IndexOf(s, sep) == Some(i)
    ensures SplitOn(s, sep) == [s[..i]] + SplitOn(s[i + 1..], sep)
  {
  }

  /** `IndexOf` is determined by its contract. */
  lemma FirstIndex(s: string, c: char, i: nat)
    requires i < |s| && s[i] == c && c !in s[..i]
    ensures IndexOf(s, c) == Some(i)
  {
  }

  /** `IndexOf` and `LastIndexOf` agree on whether the character occurs. */
  lemma LastIndexOfSome(s: string, c: char, i: nat)
    requires i < |s| && s[i] == c && c !in s[i + 1..]
    ensures LastIndexOf(s, c) == Some(i)
  {
  }

  // ---------------------------------------------------------------------
  // Python's ordering on `str`: lexicographic by code point, a proper
  // prefix coming first.

  predicate Le(a: string, b: string)
  {
    if a == [] then true
    else if b == [] then false
    else if a[0] != b[0] then a[0] < b[0]
    else Le(a[1..], b[1..])
  }

  predicate Lt(a: string, b: string)
  {
    Le(a, b) && a != b
  }

  lemma {:induction false} LeReflexive(a: string)
    ensures Le(a, a)
  {
    if a != [] { LeReflexive(a[1..]); }
  }

  lemma {:induction false} LeAntisymmetric(a: string, b: string)
    requires Le(a, b) && Le(b, a)
    ensures a == b
  {
    if a != [] && b != [] {
      LeAntisymmetric(a[1..], b[1..]);
      assert a == [a[0]] + a[1..] && b == [b[0]] + b[1..];
    }
  }

  lemma {:induction false} LeTransitive(a: string, b: string, c: string)
    requires Le(a, b) && Le(b, c)
    ensures Le(a, c)
  {
    if a != [] && b != [] && c != [] && a[0] == b[0] == c[0] {
      LeTransitive(a[1..], b[1..], c[1..]);
    }
  }

  lemma {:induction false} LeTotal(a: string, b: string)
    ensures Le(a, b) || Le(b, a)
  {
    if a != [] && b != [] && a[0] == b[0] {
      LeTotal(a[1..], b[1..]);
    }
  }

  lemma LeAntisymmetricAll()
    ensures forall a, b :: Le(a, b) && Le(b, a) ==> a == b
  {
    forall a, b | Le(a, b) && Le(b, a) ensures a == b {
      LeAntisymmetric(a, b);
    }
  }

  /** Every finite non-empty set of strings has a least element. */
  lemma {:induction false} LeastExists(s: set<string>)
    requires s != {}
    ensures exists m :: m in s && forall y :: y in s ==> Le(m, y)
    decreases |s|
  {
    var x :| x in s;
    if s == {x} {
      LeReflexive(x);
      forall y | y in s
        ensures Le(x, y)
      {
        assert y == x;
      }
    } else {
      var rest := s - {x};
      LeastExists(rest);
      var m :| m in rest && forall y :: y in rest ==> Le(m, y);
      LeTotal(x, m);
      if Le(x, m) {
        forall y | y in s
          ensures Le(x, y)
        {
          if y == x {
            LeReflexive(x);
          } else {
            assert y in rest;
            LeTransitive(x, m, y);
          }
        }
      } else {
        forall y | y in s
          ensures Le(m, y)
        {
          if y != x {
            assert y in rest;
          }
        }
        assert m in s;
      }
    }
  }

  /** The least element of a non-empty set of strings. */
  function Least(s: set<string>): (m: string)
    requires s != {}
    ensures m in s && forall y :: y in s ==> Le(m, y)
  {
    LeastExists(s);
    LeAntisymmetricAll();
    var m :| m in s && forall y :: y in s ==> Le(m, y);
    m
  }

  /** `sorted(keys)`: the set's elements, each once, in strictly ascending order. */
  function SortedKeys(s: set<string>): (r: seq<string>)
    ensures |r| == |s|
    ensures forall x :: x in r <==> x in s
    decreases |s|
  {
    if s == {} then []
    else
      var m := Least(s);
      [m] + SortedKeys(s - {m})
  }

  /** `sorted` yields the keys in strictly ascending order. */
  lemma {:induction false} SortedKeysAscending(s: set<string>)
    ensures forall i, j :: 0 <= i < j < |SortedKeys(s)| ==> Lt(SortedKeys(s)[i], SortedKeys(s)[j])
    decreases |s|
  {
    if s != {} {
      var m := Least(s);
      var rest := SortedKeys(s - {m});
      SortedKeysAscending(s - {m});
      var r := SortedKeys(s);
      assert r == [m] + rest;
      forall a, b | 0 <= a < b < |r|
        ensures Lt(r[a], r[b])
      {
        assert r[b] == rest[b - 1] && rest[b - 1] in s - {m};
        if a > 0 {
          assert r[a] == rest[a - 1];
          assert Lt(rest[a - 1], rest[b - 1]);
        } else {
          assert r[a] == m && Le(m, rest[b - 1]);
        }
      }
    }
  }

  /** Two positions of `sorted(keys)` hold different keys. */
  lemma SortedKeysDistinct(s: set<string>, a: nat, b: nat)
    requires a < b < |SortedKeys(s)|
    ensures SortedKeys(s)[a] != SortedKeys(s)[b]
  {
    SortedKeysAscending(s);
  }

  /** Only the last of the sorted keys equals the last one. */
  lemma SortedKeysLast(s: set<string>, j: nat)
    requires j < |SortedKeys(s)|
    ensures SortedKeys(s)[|SortedKeys(s)| - 1] == SortedKeys(s)[j] <==> j == |SortedKeys(s)| - 1
  {
    if j < |SortedKeys(s)| - 1 {
      SortedKeysDistinct(s, j, |SortedKeys(s)| - 1);
    }
  }

  // ---------------------------------------------------------------------
  // `str(n)` for a natural number.

  function Digit(d: nat): (c: char)
    requires d < 10
    ensures '0' <= c <= '9' && c as int - '0' as int == d
  {
    ('0' as int + d) as char
  }

  /** The decimal numeral of `n`, without leading zeros. */
  function NatToString(n: nat): (s: string)
    ensures |s| >= 1 && forall i :: 0 <= i < |s| ==> '0' <= s[i] <= '9'
    ensures |s| > 1 ==> s[0] != '0'
  {
    if n < 10 then [Digit(n)] else NatToString(n / 10) + [Digit(n % 10)]
  }

  /** The value of a string of decimal digits. */
  function DecimalValue(s: string): nat
    requires forall i :: 0 <= i < |s| ==> '0' <= s[i] <= '9'
  {
    if s == [] then 0
    else DecimalValue(s[..|s| - 1]) * 10 + (s[|s| - 1] as int - '0' as int)
  }

  /** Reading the numeral back gives the number. */
  lemma {:induction false} NatToStringValue(n: nat)
    ensures DecimalValue(NatToString(n)) == n
  {
    if n >= 10 {
      NatToStringValue(n / 10);
      var s := NatToString(n);
      assert s[..|s| - 1] == NatToString(n / 10);
    }
  }
}
