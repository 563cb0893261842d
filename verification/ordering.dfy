/** JavaScript's `<` on strings and the two sorts the sheet parsers use:
    `Object.keys(byTable).sort()` (ascending, keys distinct) and
    `rows.sort((a, b) => key(a) < key(b) ? 1 : -1)` (newest first). */
module Ordering {
  import JsString

  /** `a < b` on strings: lexicographic by UTF-16 code unit, a proper prefix
      being smaller. Characters are compared through `JsString.CodeUnitKey`,
      so a character above U+FFFF (a high surrogate first) sorts before
      U+E000..U+FFFF. */
  predicate StrLess(a: string, b: string)
    decreases |a|
  {
    if |a| == 0 then |b| > 0
    else if |b| == 0 then false
    else if a[0] != b[0] then JsString.CodeUnitKey(a[0]) < JsString.CodeUnitKey(b[0])
    else StrLess(a[1..], b[1..])
  }

  /** `StrLess` is exactly the lexicographic order of the strings' UTF-16
      encodings, which is what JavaScript compares. */
  lemma {:induction false} StrLessIsCodeUnitOrder(a: string, b: string)
    ensures StrLess(a, b) <==> JsString.UnitsLess(JsString.Utf16Of(a), JsString.Utf16Of(b))
    decreases |a|
  {
    var ua, ub := JsString.Utf16Of(a), JsString.Utf16Of(b);
    if |a| == 0 {
      assert ua == [];
    } else if |b| == 0 {
      assert ub == [];
    } else if a[0] == b[0] {
      StrLessIsCodeUnitOrder(a[1..], b[1..]);
      JsString.UnitsLessCommonPrefix(JsString.Utf16(a[0]), JsString.Utf16Of(a[1..]), JsString.Utf16Of(b[1..]));
    } else {
      JsString.CodeUnitKeyOrder(a[0], b[0]);
      JsString.UnitsLessOfDifferentChars(a[0], b[0], JsString.Utf16Of(a[1..]), JsString.Utf16Of(b[1..]));
    }
  }

  /** A character above U+FFFF sorts before U+FFFD in JavaScript, although
      its code point is larger: its high surrogate 0xD83D is smaller. */
  lemma AstralSortsBeforeReplacementChar()
    ensures StrLess("\U{1F600}", "\U{FFFD}")
    ensures '\U{1F600}' as int > '\U{FFFD}' as int
  {
  }

  lemma {:induction false} StrLessIrreflexive(a: string)
    ensures !StrLess(a, a)
    decreases |a|
  {
    if |a| > 0 {
      StrLessIrreflexive(a[1..]);
    }
  }

  lemma {:induction false} StrLessTransitive(a: string, b: string, c: string)
    requires StrLess(a, b) && StrLess(b, c)
    ensures StrLess(a, c)
    decreases |a|
  {
    if |a| > 0 && a[0] == b[0] && b[0] == c[0] {
      StrLessTransitive(a[1..], b[1..], c[1..]);
    }
  }

  lemma {:induction false} StrLessTotal(a: string, b: string)
    ensures a == b || StrLess(a, b) || StrLess(b, a)
    decreases |a|
  {
    if |a| > 0 && |b| > 0 && a[0] != b[0] {
      JsString.CodeUnitKeyOrder(a[0], b[0]);
      JsString.CodeUnitKeyOrder(b[0], a[0]);
    }
    if |a| > 0 && |b| > 0 && a[0] == b[0] {
      StrLessTotal(a[1..], b[1..]);
      if a[1..] == b[1..] {
        assert a == [a[0]] + a[1..] && b == [b[0]] + b[1..];
      }
    }
  }

  /** `!(a < b)` chains: if `a >= b` and `b >= c` then `a >= c`. */
  lemma NotLessTransitive(a: string, b: string, c: string)
    requires !StrLess(a, b) && !StrLess(b, c)
    ensures !StrLess(a, c)
  {
    StrLessTotal(a, b);
    StrLessTotal(b, c);
    if StrLess(a, c) {
      if StrLess(b, a) {
        StrLessTransitive(b, a, c);
      }
    }
  }

  // ---------------------------------------------------------------------------
  // Ascending sort of distinct keys
  // ---------------------------------------------------------------------------

  predicate StrictlyIncreasing(s: seq<string>) {
    forall i, j :: 0 <= i < j < |s| ==> StrLess(s[i], s[j])
  }

  /** Insert `x` into an increasing sequence, keeping it increasing and
      duplicate-free. */
  function InsertKey(x: string, s: seq<string>): (r: seq<string>)
    requires StrictlyIncreasing(s)
    ensures StrictlyIncreasing(r)
    ensures forall y :: y in r <==> y == x || y in s
    decreases |s|
  {
    if |s| == 0 then [x]
    else if x == s[0] then s
    else if StrLess(x, s[0]) then
      assert forall j :: 0 <= j < |s| ==> StrLess(x, s[j]) by {
        forall j | 0 < j < |s| ensures StrLess(x, s[j]) {
          StrLessTransitive(x, s[0], s[j]);
        }
      }
      [x] + s
    else
      StrLessTotal(x, s[0]);
      var rest := InsertKey(x, s[1..]);
      assert forall y :: y in s[1..] ==> StrLess(s[0], y);
      assert forall j :: 0 <= j < |rest| ==> rest[j] == x || rest[j] in s[1..];
      [s[0]] + rest
  }

  /** `.sort()` of keys that are already distinct: each key once, ascending. */
  function SortKeys(keys: seq<string>): (r: seq<string>)
    ensures StrictlyIncreasing(r)
    ensures forall y :: y in r <==> y in keys
    decreases |keys|
  {
    if |keys| == 0 then []
    else InsertKey(keys[0], SortKeys(keys[1..]))
  }

  /** There is only one increasing arrangement of a set of keys. */
  lemma {:induction false} IncreasingUnique(a: seq<string>, b: seq<string>)
    requires StrictlyIncreasing(a) && StrictlyIncreasing(b)
    requires forall y :: y in a <==> y in b
    ensures a == b
    decreases |a|
  {
    if |a| > 0 {
      assert a[0] in b;
    }
    if |b| > 0 {
      assert b[0] in a;
    }
    if |a| > 0 && |b| > 0 {
      FirstIsLeast(a, b);
      FirstIsLeast(b, a);
      StrLessTotal(a[0], b[0]);
      StrLessIrreflexive(a[0]);
      forall y ensures y in a[1..] <==> y in b[1..] {
        if y in a[1..] {
          var k :| 0 <= k < |a[1..]| && a[1..][k] == y;
          assert StrLess(a[0], a[k + 1]);
          assert y in b && y != b[0];
          var m :| 0 <= m < |b| && b[m] == y;
          assert m > 0 && b[1..][m - 1] == y;
        }
        if y in b[1..] {
          var k :| 0 <= k < |b[1..]| && b[1..][k] == y;
          assert StrLess(b[0], b[k + 1]);
          assert y in a && y != a[0];
          var m :| 0 <= m < |a| && a[m] == y;
          assert m > 0 && a[1..][m - 1] == y;
        }
      }
      IncreasingUnique(a[1..], b[1..]);
      assert a == [a[0]] + a[1..] && b == [b[0]] + b[1..];
    }
  }

  lemma FirstIsLeast(a: seq<string>, b: seq<string>)
    requires StrictlyIncreasing(a) && StrictlyIncreasing(b)
    requires forall y :: y in a <==> y in b
    requires |a| > 0 && |b| > 0
    ensures !StrLess(b[0], a[0])
  {
    assert b[0] in b;
    var j :| 0 <= j < |a| && a[j] == b[0];
    StrLessIrreflexive(a[0]);
    if j > 0 && StrLess(b[0], a[0]) {
      StrLessTransitive(a[0], a[j], a[0]);
    }
  }

  // ---------------------------------------------------------------------------
  // Newest-first sort by a string key
  // ---------------------------------------------------------------------------

  /** No item has a smaller key than a later item. */
  predicate NewestFirst<T>(s: seq<T>, key: T -> string) {
    forall i, j :: 0 <= i < j < |s| ==> !StrLess(key(s[i]), key(s[j]))
  }

  /** Insert `x` before the first item whose key is not greater than its own. */
  function InsertNewest<T>(x: T, s: seq<T>, key: T -> string): (r: seq<T>)
    requires NewestFirst(s, key)
    ensures NewestFirst(r, key)
    ensures multiset(r) == multiset(s) + multiset{x}
    decreases |s|
  {
    if |s| == 0 || !StrLess(key(x), key(s[0])) then
      PrependNewest(x, s, key);
      [x] + s
    else
      var rest := InsertNewest(x, s[1..], key);
      assert s == [s[0]] + s[1..];
      HeadStaysFirst(s[0], x, s[1..], rest, key);
      [s[0]] + rest
  }

  lemma PrependNewest<T>(x: T, s: seq<T>, key: T -> string)
    requires NewestFirst(s, key)
    requires |s| == 0 || !StrLess(key(x), key(s[0]))
    ensures NewestFirst([x] + s, key)
  {
    forall j | 0 < j < |s| ensures !StrLess(key(x), key(s[j])) {
      NotLessTransitive(key(x), key(s[0]), key(s[j]));
    }
  }

  lemma HeadStaysFirst<T>(h: T, x: T, tail: seq<T>, rest: seq<T>, key: T -> string)
    requires NewestFirst([h] + tail, key) && NewestFirst(rest, key)
    requires StrLess(key(x), key(h))
    requires multiset(rest) == multiset(tail) + multiset{x}
    ensures NewestFirst([h] + rest, key)
  {
    forall j | 0 <= j < |rest| ensures !StrLess(key(h), key(rest[j])) {
      assert rest[j] in multiset(rest);
      if rest[j] == x {
        StrLessTotal(key(x), key(h));
        StrLessIrreflexive(key(x));
        if StrLess(key(h), key(x)) {
          StrLessTransitive(key(x), key(h), key(x));
        }
      } else {
        assert rest[j] in multiset(tail);
        assert rest[j] in tail;
        var k :| 0 <= k < |tail| && tail[k] == rest[j];
        assert ([h] + tail)[k + 1] == rest[j];
        assert ([h] + tail)[0] == h;
        assert !StrLess(key(([h] + tail)[0]), key(([h] + tail)[k + 1]));
      }
    }
  }

  /** `xs.sort((a, b) => key(a) < key(b) ? 1 : -1)`: the items rearranged with
      the largest key first. The comparator never answers 0, so the order
      among equal keys is the engine's choice; this one keeps them in input
      order. */
  function SortNewestFirst<T>(xs: seq<T>, key: T -> string): (r: seq<T>)
    ensures NewestFirst(r, key)
    ensures multiset(r) == multiset(xs)
    decreases |xs|
  {
    if |xs| == 0 then []
    else
      assert xs == [xs[0]] + xs[1..];
      InsertNewest(xs[0], SortNewestFirst(xs[1..], key), key)
  }
}
