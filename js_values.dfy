/** Values as the ledger code sees them in JavaScript: optional fields, numbers that
    may be NaN, text fields of a form, `trim`, `includes` and the string ordering
    used by `sort`. */
module JsValues {

  datatype Option<T> = None | Some(value: T)

  /** `!!x` for an optional numeric field: present and non-zero. */
  predicate Truthy(x: Option<real>) {
    x.Some? && x.value != 0.0
  }

  /** A JavaScript number, as far as the ledger produces one: a finite value or NaN. */
  datatype Number = NaN | Num(value: real)

  /** `Number(x)` for an optional numeric field; `Number(undefined)` is NaN. */
  function ToNumber(x: Option<real>): Number {
    match x
    case None => NaN
    case Some(v) => Num(v)
  }

  /** `a + b`: NaN absorbs. */
  function Add(a: Number, b: Number): (r: Number)
    ensures r.NaN? <==> a.NaN? || b.NaN?
    ensures r.Num? ==> r.value == a.value + b.value
  {
    if a.NaN? || b.NaN? then NaN else Num(a.value + b.value)
  }

  /** `a - b`: NaN absorbs. */
  function Sub(a: Number, b: Number): (r: Number)
    ensures r.NaN? <==> a.NaN? || b.NaN?
    ensures r.Num? ==> r.value == a.value - b.value
  {
    if a.NaN? || b.NaN? then NaN else Num(a.value - b.value)
  }

  /** `a < b`: every comparison with NaN is false. */
  predicate Less(a: Number, b: Number) {
    a.Num? && b.Num? && a.value < b.value
  }

  /** Adding a number and subtracting it again gives back the value; once NaN is
      involved, the result stays NaN. */
  lemma AddThenSub(a: Number, b: Number)
    ensures b.Num? ==> Sub(Add(a, b), b) == a
    ensures b.NaN? || a.NaN? ==> Sub(Add(a, b), b).NaN? && Add(Sub(a, b), b).NaN?
  {
  }

  /** NaN is comparable to nothing: the balance checks `amount > balance` fail
      on a NaN balance. Between numbers, `<` is the order of the reals. */
  lemma LessOnNaN(x: Number, y: Number)
    ensures !Less(NaN, x) && !Less(x, NaN)
    ensures x.Num? && y.Num? ==> (Less(x, y) || Less(y, x) || x == y)
    ensures !(Less(x, y) && Less(y, x))
  {
  }

  /** The text of a form field that holds a number: empty, or non-empty text whose
      JavaScript `Number(...)` conversion (after the form's own comma stripping) is
      `number`; text that is not a number converts to NaN. */
  datatype Field = Blank | Entered(number: Number)

  /** `Number(text)`: the empty string converts to 0. */
  function FieldNumber(f: Field): Number {
    match f
    case Blank => Num(0.0)
    case Entered(n) => n
  }

  /** The characters `String.prototype.trim` removes: ECMAScript WhiteSpace and LineTerminator. */
  predicate IsJsWhitespace(c: char) {
    c == ' ' || c == '\t' || c == '\n' || c == '\r' || c == '\U{000B}' || c == '\U{000C}'
    || c == '\U{00A0}' || c == '\U{1680}' || ('\U{2000}' <= c <= '\U{200A}')
    || c == '\U{2028}' || c == '\U{2029}' || c == '\U{202F}' || c == '\U{205F}'
    || c == '\U{3000}' || c == '\U{FEFF}'
  }

  predicate AllWhitespace(s: string) {
    forall k :: 0 <= k < |s| ==> IsJsWhitespace(s[k])
  }

  function TrimStart(s: string): (r: string)
    ensures |r| <= |s| && r == s[|s| - |r|..]
    ensures |r| == 0 || !IsJsWhitespace(r[0])
    ensures AllWhitespace(s[..|s| - |r|])
  {
    if |s| > 0 && IsJsWhitespace(s[0]) then TrimStart(s[1..]) else s
  }

  function TrimEnd(s: string): (r: string)
    ensures |r| <= |s| && r == s[..|r|]
    ensures |r| == 0 || !IsJsWhitespace(r[|r| - 1])
    ensures AllWhitespace(s[|r|..])
  {
    if |s| > 0 && IsJsWhitespace(s[|s| - 1]) then TrimEnd(s[..|s| - 1]) else s
  }

  /** `s.trim()`. */
  function Trim(s: string): string {
    TrimEnd(TrimStart(s))
  }

  /** A whitespace prefix cut off `s` and then a whitespace suffix cut off the rest
      leaves a middle piece of `s`. */
  lemma CutBothEnds(s: string, t: string, e: string)
    requires |t| <= |s| && t == s[|s| - |t|..] && AllWhitespace(s[..|s| - |t|])
    requires |e| <= |t| && e == t[..|e|] && AllWhitespace(t[|e|..])
    ensures var i := |s| - |t|;
      s[i..i + |e|] == e && AllWhitespace(s[i + |e|..])
  {
    var i := |s| - |t|;
    assert s[i + |e|..] == t[|e|..];
  }

  /** Where `trim` cuts: after the leading and before the trailing whitespace. */
  lemma TrimCut(s: string) returns (i: nat, j: nat)
    ensures i <= j <= |s| && Trim(s) == s[i..j]
    ensures AllWhitespace(s[..i]) && AllWhitespace(s[j..])
  {
    var t := TrimStart(s);
    var e := TrimEnd(t);
    assert Trim(s) == e;
    CutBothEnds(s, t, e);
    i := |s| - |t|;
    j := i + |e|;
    assert s[i..j] == e;
  }

  /** What `trim` returns: a piece of `s` with only whitespace cut off either end,
      and with no whitespace at either of its own ends. */
  lemma TrimIsInnerPart(s: string)
    ensures exists i, j :: 0 <= i <= j <= |s| && Trim(s) == s[i..j]
              && AllWhitespace(s[..i]) && AllWhitespace(s[j..])
    ensures |Trim(s)| == 0 || (!IsJsWhitespace(Trim(s)[0]) && !IsJsWhitespace(Trim(s)[|Trim(s)| - 1]))
  {
    var i, j := TrimCut(s);
    var t := TrimStart(s);
    var e := TrimEnd(t);
    if |e| > 0 {
      assert e[0] == t[0];
    }
  }

  /** A trimmed name is empty exactly when the name is made of whitespace only. */
  lemma TrimEmptyIffWhitespace(s: string)
    ensures Trim(s) == "" <==> AllWhitespace(s)
  {
    var i, j := TrimCut(s);
    TrimIsInnerPart(s);
    if Trim(s) == "" {
      forall k | 0 <= k < |s| ensures IsJsWhitespace(s[k]) {
        if k < i {
          assert s[k] == s[..i][k];
        } else {
          assert s[k] == s[j..][k - j];
        }
      }
    } else {
      assert s[i] == Trim(s)[0];
    }
  }

  /** A string with no whitespace at either end is its own trim. */
  lemma TrimOfClean(s: string)
    requires |s| > 0 && !IsJsWhitespace(s[0]) && !IsJsWhitespace(s[|s| - 1])
    ensures Trim(s) == s
  {
    assert TrimStart(s) == s;
    assert TrimEnd(s) == s;
  }

  /** Trimming twice is trimming once. */
  lemma TrimIdempotent(s: string)
    ensures Trim(Trim(s)) == Trim(s)
  {
    TrimIsInnerPart(s);
    var r := Trim(s);
    if |r| > 0 {
      assert TrimStart(r) == r;
      assert TrimEnd(r) == r;
    }
  }

  /** `s.startsWith(p)`. */
  predicate IsPrefix(p: string, s: string) {
    |p| <= |s| && s[..|p|] == p
  }

  /** `s.includes(sub)`: `sub` occurs in `s` as a contiguous piece. */
  predicate Includes(s: string, sub: string)
    decreases |s|
  {
    IsPrefix(sub, s) || (|s| > 0 && Includes(s[1..], sub))
  }

  /** `sub` occurs in `s` starting at index `i`. */
  predicate OccursAt(s: string, sub: string, i: int) {
    0 <= i && i + |sub| <= |s| && s[i..i + |sub|] == sub
  }

  /** `includes` finds exactly the contiguous occurrences. */
  lemma {:induction false} IncludesIffOccurs(s: string, sub: string)
    ensures Includes(s, sub) <==> exists i :: OccursAt(s, sub, i)
    decreases |s|
  {
    if |s| > 0 {
      IncludesIffOccurs(s[1..], sub);
      if Includes(s[1..], sub) {
        var i :| OccursAt(s[1..], sub, i);
        assert s[i + 1..i + 1 + |sub|] == s[1..][i..i + |sub|];
        assert OccursAt(s, sub, i + 1);
      }
      if IsPrefix(sub, s) {
        assert OccursAt(s, sub, 0);
      }
      if !IsPrefix(sub, s) && exists i :: OccursAt(s, sub, i) {
        var i :| OccursAt(s, sub, i);
        assert i != 0;
        assert s[1..][i - 1..i - 1 + |sub|] == s[i..i + |sub|];
        assert OccursAt(s[1..], sub, i - 1);
      }
    } else {
      if Includes(s, sub) {
        assert OccursAt(s, sub, 0);
      }
      if exists i :: OccursAt(s, sub, i) {
        var i :| OccursAt(s, sub, i);
        assert |sub| == 0 && s[..|sub|] == sub;
        assert IsPrefix(sub, s);
      }
    }
  }

  /** Lexicographic order of strings by character, standing for the code-unit order
      of JavaScript's `<` and default `sort`; the two agree on characters up to U+FFFF. */
  predicate StrLess(a: string, b: string)
    decreases |a|
  {
    if |a| == 0 then |b| > 0
    else if |b| == 0 then false
    else if a[0] != b[0] then a[0] < b[0]
    else StrLess(a[1..], b[1..])
  }

  lemma {:induction false} StrLessIrreflexive(a: string)
    ensures !StrLess(a, a)
    decreases |a|
  {
    if |a| > 0 { StrLessIrreflexive(a[1..]); }
  }

  lemma {:induction false} StrLessTransitive(a: string, b: string, c: string)
    requires StrLess(a, b) && StrLess(b, c)
    ensures StrLess(a, c)
    decreases |a|
  {
    if |a| > 0 && |b| > 0 && |c| > 0 && a[0] == b[0] && b[0] == c[0] {
      StrLessTransitive(a[1..], b[1..], c[1..]);
    }
  }

  lemma {:induction false} StrLessTotal(a: string, b: string)
    ensures a == b || StrLess(a, b) || StrLess(b, a)
    decreases |a|
  {
    if |a| > 0 && |b| > 0 && a[0] == b[0] {
      StrLessTotal(a[1..], b[1..]);
      if a[1..] == b[1..] {
        assert a == [a[0]] + a[1..] && b == [b[0]] + b[1..];
      }
    }
  }

  lemma StrLessAsymmetric(a: string, b: string)
    requires StrLess(a, b)
    ensures !StrLess(b, a)
  {
    if StrLess(b, a) {
      StrLessTransitive(a, b, a);
      StrLessIrreflexive(a);
    }
  }

  predicate SortedAscending(s: seq<string>) {
    forall i, j :: 0 <= i < j < |s| ==> !StrLess(s[j], s[i])
  }

  predicate SortedDescending(s: seq<string>) {
    forall i, j :: 0 <= i < j < |s| ==> !StrLess(s[i], s[j])
  }

  function InsertAscending(x: string, s: seq<string>): (r: seq<string>)
    ensures multiset(r) == multiset(s) + multiset{x}
  {
    if |s| == 0 then [x]
    else if !StrLess(s[0], x) then [x] + s
    else
      assert s == [s[0]] + s[1..];
      [s[0]] + InsertAscending(x, s[1..])
  }

  lemma {:induction false} InsertAscendingSorted(x: string, s: seq<string>)
    requires SortedAscending(s)
    ensures SortedAscending(InsertAscending(x, s))
    decreases |s|
  {
    if |s| == 0 {
    } else if !StrLess(s[0], x) {
      var r := InsertAscending(x, s);
      forall j | 1 <= j < |r| ensures !StrLess(r[j], x) {
        if StrLess(r[j], x) {
          StrLessTotal(s[0], x);
          if s[0] != x {
            StrLessTransitive(r[j], x, s[0]);
          }
        }
      }
    } else {
      InsertAscendingSorted(x, s[1..]);
      var t := InsertAscending(x, s[1..]);
      var r := InsertAscending(x, s);
      assert r == [s[0]] + t;
      forall j | 1 <= j < |r| ensures !StrLess(r[j], s[0]) {
        assert r[j] == t[j - 1];
        assert t[j - 1] in multiset(t);
        assert t[j - 1] in multiset(s[1..]) + multiset{x};
        if t[j - 1] == x {
          StrLessAsymmetric(s[0], x);
        } else {
          assert t[j - 1] in s[1..];
          var k :| 0 <= k < |s[1..]| && s[1..][k] == t[j - 1];
          assert s[k + 1] == t[j - 1];
        }
      }
    }
  }

  /** The default `sort()` of an array of strings (ascending, in `StrLess` order). */
  function SortAscending(s: seq<string>): (r: seq<string>)
    ensures multiset(r) == multiset(s)
  {
    if |s| == 0 then []
    else
      assert s == [s[0]] + s[1..];
      InsertAscending(s[0], SortAscending(s[1..]))
  }

  lemma {:induction false} SortAscendingSorted(s: seq<string>)
    ensures SortedAscending(SortAscending(s))
    decreases |s|
  {
    if |s| > 0 {
      SortAscendingSorted(s[1..]);
      InsertAscendingSorted(s[0], SortAscending(s[1..]));
    }
  }

  function Reverse<T>(s: seq<T>): (r: seq<T>)
    ensures |r| == |s|
    ensures forall k :: 0 <= k < |s| ==> r[k] == s[|s| - 1 - k]
  {
    if |s| == 0 then [] else Reverse(s[1..]) + [s[0]]
  }

  lemma ReverseMultiset<T>(s: seq<T>)
    ensures multiset(Reverse(s)) == multiset(s)
  {
    if |s| > 0 {
      ReverseMultiset(s[1..]);
      assert s == [s[0]] + s[1..];
    }
  }

  /** `sort((a, b) => b.localeCompare(a))` on strings, with `StrLess` order in place of
      the locale's collation: the ascending sort, reversed. For the duplicate-free
      arrays the ledger sorts this way, it is the only descending arrangement. */
  function SortDescending(s: seq<string>): seq<string> {
    Reverse(SortAscending(s))
  }

  lemma SortDescendingCorrect(s: seq<string>)
    ensures SortedDescending(SortDescending(s))
    ensures multiset(SortDescending(s)) == multiset(s)
  {
    SortAscendingSorted(s);
    ReverseMultiset(SortAscending(s));
  }

  /** No element occurs twice. */
  predicate Distinct<T(==)>(s: seq<T>) {
    forall i, j :: 0 <= i < j < |s| ==> s[i] != s[j]
  }

  /** A sorted duplicate-free sequence is strictly in order. */
  lemma SortedDistinctStrict(s: seq<string>)
    requires SortedAscending(s) && Distinct(s)
    ensures forall i, j :: 0 <= i < j < |s| ==> StrLess(s[i], s[j])
  {
    forall i, j | 0 <= i < j < |s| ensures StrLess(s[i], s[j]) {
      StrLessTotal(s[i], s[j]);
    }
  }

  /** Elements that occur once in `s` occur once in any permutation of it. */
  lemma DistinctPermutation<T>(s: seq<T>, t: seq<T>)
    requires Distinct(s) && multiset(s) == multiset(t)
    ensures Distinct(t)
  {
    forall i, j | 0 <= i < j < |t| ensures t[i] != t[j] {
      if t[i] == t[j] {
        assert multiset(t)[t[i]] >= 2 by {
          assert t == t[..i] + [t[i]] + t[i + 1..j] + [t[j]] + t[j + 1..];
        }
        DistinctCountOne(s, t[i]);
      }
    }
  }

  lemma {:induction false} DistinctCountOne<T>(s: seq<T>, x: T)
    requires Distinct(s)
    ensures multiset(s)[x] <= 1
  {
    if |s| > 0 {
      DistinctCountOne(s[1..], x);
      assert s == [s[0]] + s[1..];
      if s[0] == x {
        assert x !in s[1..];
      }
    }
  }

  /** Appending a new element keeps a sequence duplicate-free. */
  lemma DistinctSnoc<T>(s: seq<T>, x: T)
    requires Distinct(s) && x !in s
    ensures Distinct(s + [x])
  {
    var r := s + [x];
    forall i, j | 0 <= i < j < |r| ensures r[i] != r[j] {
      if j == |s| {
        assert r[i] == s[i];
      } else {
        assert r[i] == s[i] && r[j] == s[j];
      }
    }
  }
}
