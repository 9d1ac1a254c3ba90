/** The slice of Java's semantics the editor leans on: `int` division and remainder
    (both truncate toward zero, unlike Dafny's Euclidean operators), the nullable
    reference as an `Option`, and the `java.util.List` operations the editor applies
    to lists of shapes (`remove(Object)`, `removeAll`, `contains`). */
module JavaLang {

  /** A nullable reference. */
  datatype Option<T> = None | Some(value: T)

  function Abs(x: int): nat
  {
    if x < 0 then -x else x
  }

  /** Java's `a / b` on `int`: the quotient truncated toward zero. */
  function Div(a: int, b: int): (q: int)
    requires b != 0
    ensures Abs(a - b * q) < Abs(b)
    ensures a - b * q == 0 || (a - b * q > 0 <==> a > 0)
  {
    if a >= 0 then
      if b > 0 then a / b else -(a / -b)
    else
      if b > 0 then -((-a) / b) else (-a) / (-b)
  }

  /** Java's `a % b` on `int`: the remainder left by `Div`, which has the sign of `a`. */
  function Rem(a: int, b: int): (r: int)
    requires b != 0
    ensures Abs(r) < Abs(b)
    ensures r == 0 || (r > 0 <==> a > 0)
    ensures exists q :: a == b * q + r
  {
    var q := Div(a, b);
    assert a == b * q + (a - b * q);
    a - b * q
  }

  /** How many times `x` occurs in `s`. */
  function Occurrences<T(==)>(s: seq<T>, x: T): nat
  {
    if s == [] then 0
    else (if s[0] == x then 1 else 0) + Occurrences(s[1..], x)
  }

  /** Counting by hand agrees with the multiset of the list. */
  lemma {:induction false} OccurrencesCount<T>(s: seq<T>, x: T)
    ensures Occurrences(s, x) == multiset(s)[x]
  {
    if s != [] {
      assert s == [s[0]] + s[1..];
      OccurrencesCount(s[1..], x);
    }
  }

  /** No element occurs twice. */
  predicate Distinct<T(==)>(s: seq<T>)
  {
    forall i, j | 0 <= i < j < |s| :: s[i] != s[j]
  }

  /** `List.indexOf`: the position of the first occurrence of `x`. */
  function IndexIn<T(==)>(s: seq<T>, x: T): (i: nat)
    requires x in s
    ensures i < |s| && s[i] == x && x !in s[..i]
    decreases |s|
  {
    if s[0] == x then 0
    else
      assert x in s[1..] by { assert s == [s[0]] + s[1..]; }
      var k := IndexIn(s[1..], x);
      assert s[..k + 1] == [s[0]] + s[1..][..k];
      k + 1
  }

  /** Past a different head, the first occurrence sits one further on than in the tail. */
  lemma IndexInTail<T>(s: seq<T>, x: T)
    requires x in s && x != s[0]
    ensures x in s[1..] && IndexIn(s, x) == IndexIn(s[1..], x) + 1
  {
    assert s == [s[0]] + s[1..];
  }

  /** `List.remove(Object)`: drops the first occurrence of `x`, if any. */
  function RemoveFirst<T(==)>(s: seq<T>, x: T): (r: seq<T>)
    ensures x !in s ==> r == s
    ensures x in s ==> |r| == |s| - 1
  {
    if s == [] then []
    else if s[0] == x then s[1..]
    else [s[0]] + RemoveFirst(s[1..], x)
  }

  /** `remove(x)` takes exactly one occurrence of `x` away, when there is one. */
  lemma {:induction false} RemoveFirstCounts<T>(s: seq<T>, x: T)
    ensures multiset(RemoveFirst(s, x)) == multiset(s) - multiset{x}
  {
    if s != [] {
      assert s == [s[0]] + s[1..];
      if s[0] != x {
        RemoveFirstCounts(s[1..], x);
      }
    }
  }

  /** `List.removeAll(c)`: drops every element that occurs in `xs`, keeping the order
      of the rest. */
  function RemoveAll<T(==)>(s: seq<T>, xs: seq<T>): (r: seq<T>)
    ensures forall i | 0 <= i < |r| :: r[i] in s && r[i] !in xs
    ensures forall i | 0 <= i < |s| :: s[i] !in xs ==> s[i] in r
    ensures |r| <= |s|
  {
    if s == [] then []
    else if s[0] in xs then RemoveAll(s[1..], xs)
    else [s[0]] + RemoveAll(s[1..], xs)
  }

  /** The elements of `s` that also occur in `xs`, in the order of `s`. */
  function KeepAll<T(==)>(s: seq<T>, xs: seq<T>): (r: seq<T>)
    ensures forall i | 0 <= i < |r| :: r[i] in s && r[i] in xs
    ensures forall i | 0 <= i < |s| :: s[i] in xs ==> s[i] in r
    ensures |r| <= |s|
  {
    if s == [] then []
    else if s[0] in xs then [s[0]] + KeepAll(s[1..], xs)
    else KeepAll(s[1..], xs)
  }

  /** Removing first occurrences one element of `doomed` at a time, as a `forEach`
      over `List.remove` does. */
  function RemoveEach<T(==)>(s: seq<T>, doomed: seq<T>): seq<T>
    decreases |doomed|
  {
    if doomed == [] then s
    else RemoveEach(RemoveFirst(s, doomed[0]), doomed[1..])
  }

  /** `forEach(remove)` takes one occurrence away for each listed element. */
  lemma {:induction false} RemoveEachCounts<T>(s: seq<T>, doomed: seq<T>)
    ensures multiset(RemoveEach(s, doomed)) == multiset(s) - multiset(doomed)
    decreases |doomed|
  {
    if doomed != [] {
      assert doomed == [doomed[0]] + doomed[1..];
      RemoveFirstCounts(s, doomed[0]);
      RemoveEachCounts(RemoveFirst(s, doomed[0]), doomed[1..]);
    }
  }

  /** Removing, one at a time, exactly the elements `KeepAll` picked out leaves the
      same list as `removeAll`: every occurrence goes, and the order of the rest stays. */
  lemma {:induction false} RemoveEachKeptIsRemoveAll<T>(s: seq<T>, xs: seq<T>)
    ensures RemoveEach(s, KeepAll(s, xs)) == RemoveAll(s, xs)
    decreases |s|
  {
    if s != [] {
      var rest := KeepAll(s[1..], xs);
      RemoveEachKeptIsRemoveAll(s[1..], xs);
      if s[0] in xs {
        assert KeepAll(s, xs) == [s[0]] + rest;
        RemoveEachCons(s, s[0], rest);
        assert RemoveFirst(s, s[0]) == s[1..];
      } else {
        assert KeepAll(s, xs) == rest;
        assert s[0] !in rest;
        RemoveEachHead(s, rest);
      }
    }
  }

  /** `forEach(remove)` takes the first element of the removal list first. */
  lemma RemoveEachCons<T>(s: seq<T>, d: T, rest: seq<T>)
    ensures RemoveEach(s, [d] + rest) == RemoveEach(RemoveFirst(s, d), rest)
  {
    assert ([d] + rest)[0] == d && ([d] + rest)[1..] == rest;
  }

  /** Removing elements that differ from the head of a list leaves the head in front. */
  lemma {:induction false} RemoveEachHead<T>(s: seq<T>, doomed: seq<T>)
    requires s != [] && s[0] !in doomed
    ensures RemoveEach(s, doomed) == [s[0]] + RemoveEach(s[1..], doomed)
    decreases |doomed|
  {
    if doomed != [] {
      var d := doomed[0];
      var t := RemoveFirst(s, d);
      RemoveFirstKeepsHead(s, d);
      RemoveEachUnfold(s, doomed);
      RemoveEachUnfold(s[1..], doomed);
      NotInTail(s[0], doomed);
      RemoveEachHead(t, doomed[1..]);
    }
  }

  lemma RemoveFirstKeepsHead<T>(s: seq<T>, x: T)
    requires s != [] && s[0] != x
    ensures var t := RemoveFirst(s, x); t != [] && t[0] == s[0] && t[1..] == RemoveFirst(s[1..], x)
  {
  }

  lemma RemoveEachUnfold<T>(s: seq<T>, doomed: seq<T>)
    requires doomed != []
    ensures RemoveEach(s, doomed) == RemoveEach(RemoveFirst(s, doomed[0]), doomed[1..])
  {
  }

  lemma NotInTail<T>(x: T, s: seq<T>)
    requires s != [] && x !in s
    ensures x !in s[1..]
  {
    assert forall i | 0 <= i < |s[1..]| :: s[1..][i] == s[i + 1];
  }

  /** `remove(x)` after appending `x` to a list without `x` gives the list back. */
  lemma {:induction false} RemoveFirstAfterAppend<T>(s: seq<T>, tail: seq<T>, x: T)
    requires x !in s
    ensures RemoveFirst(s + [x] + tail, x) == s + tail
    decreases |s|
  {
    if s == [] {
      assert s + [x] + tail == [x] + tail;
      assert ([x] + tail)[1..] == tail;
    } else {
      var v := s[1..] + [x] + tail;
      assert x !in s[1..] by {
        assert forall i | 0 <= i < |s[1..]| :: s[1..][i] == s[i + 1];
      }
      RemoveFirstAfterAppend(s[1..], tail, x);
      ConsAppend(s, [x] + tail);
      ConsAppend(s, tail);
      assert s + [x] + tail == s + ([x] + tail);
      assert s[1..] + [x] + tail == s[1..] + ([x] + tail);
      RemoveFirstCons(s[0], v, x);
    }
  }

  /** A list whose head differs from `x` keeps its head when `x` is removed. */
  lemma RemoveFirstCons<T>(a: T, v: seq<T>, x: T)
    requires a != x
    ensures RemoveFirst([a] + v, x) == [a] + RemoveFirst(v, x)
  {
    assert ([a] + v)[0] == a && ([a] + v)[1..] == v;
  }

  lemma ConsAppend<T>(s: seq<T>, t: seq<T>)
    requires s != []
    ensures s + t == [s[0]] + (s[1..] + t)
  {
    assert s == [s[0]] + s[1..];
  }

  lemma AppendAssoc<T>(a: seq<T>, b: seq<T>, c: seq<T>)
    ensures a + b + c == a + (b + c)
  {
  }

  /** In a list without repetitions every element occurs exactly once. */
  lemma {:induction false} DistinctCounts<T>(s: seq<T>)
    requires Distinct(s)
    ensures forall x :: multiset(s)[x] == if x in s then 1 else 0
  {
    if s != [] {
      assert s == [s[0]] + s[1..];
      assert Distinct(s[1..]) by {
        forall i, j | 0 <= i < j < |s[1..]| ensures s[1..][i] != s[1..][j] {
          assert s[1..][i] == s[i + 1] && s[1..][j] == s[j + 1];
        }
      }
      assert s[0] !in s[1..] by {
        forall i | 0 <= i < |s[1..]| ensures s[1..][i] != s[0] {
          assert s[1..][i] == s[i + 1];
        }
      }
      DistinctCounts(s[1..]);
    }
  }

  /** `removeAll` drops every copy of the listed elements and keeps every copy of the
      others. */
  lemma {:induction false} RemoveAllCounts<T>(s: seq<T>, xs: seq<T>, x: T)
    ensures multiset(RemoveAll(s, xs))[x] == if x in xs then 0 else multiset(s)[x]
  {
    if s != [] {
      assert s == [s[0]] + s[1..];
      RemoveAllCounts(s[1..], xs, x);
      if s[0] !in xs {
        assert RemoveAll(s, xs) == [s[0]] + RemoveAll(s[1..], xs);
      }
    }
  }

  /** Removing a set of distinct members from a list without repetitions that holds
      them all, and then appending the members, gives a permutation of the list. */
  lemma SplitOff<T>(s: seq<T>, ms: seq<T>)
    requires Distinct(s) && Distinct(ms) && forall m | m in ms :: m in s
    ensures multiset(RemoveAll(s, ms)) + multiset(ms) == multiset(s)
  {
    DistinctCounts(s);
    DistinctCounts(ms);
    forall x ensures (multiset(RemoveAll(s, ms)) + multiset(ms))[x] == multiset(s)[x] {
      RemoveAllCounts(s, ms, x);
    }
  }

  /** `remove(x)` on a list that already held `x` before `tail` was appended takes the
      earlier occurrence and leaves `tail` in place. */
  lemma {:induction false} RemoveFirstBeforeTail<T>(s: seq<T>, tail: seq<T>, x: T)
    requires x in s
    ensures RemoveFirst(s + tail, x) == RemoveFirst(s, x) + tail
  {
    var u := s + tail;
    assert u[0] == s[0];
    if s[0] == x {
      assert u[1..] == s[1..] + tail;
    } else {
      assert u[1..] == s[1..] + tail;
      RemoveFirstBeforeTail(s[1..], tail, x);
    }
  }

  lemma {:induction false} RemoveAllAppend<T>(s: seq<T>, t: seq<T>, xs: seq<T>)
    ensures RemoveAll(s + t, xs) == RemoveAll(s, xs) + RemoveAll(t, xs)
  {
    if s == [] {
      assert s + t == t;
    } else {
      assert (s + t)[0] == s[0] && (s + t)[1..] == s[1..] + t;
      RemoveAllAppend(s[1..], t, xs);
    }
  }

  /** `removeAll` of elements the list does not hold changes nothing. */
  lemma {:induction false} RemoveAllNone<T>(s: seq<T>, xs: seq<T>)
    requires forall i | 0 <= i < |s| :: s[i] !in xs
    ensures RemoveAll(s, xs) == s
  {
    if s != [] {
      assert forall i | 0 <= i < |s[1..]| :: s[1..][i] == s[i + 1];
      RemoveAllNone(s[1..], xs);
      assert s == [s[0]] + s[1..];
    }
  }

  /** What `removeAll` keeps: exactly the elements not listed. */
  lemma RemoveAllMembers<T>(s: seq<T>, xs: seq<T>)
    ensures forall x :: x in RemoveAll(s, xs) <==> x in s && x !in xs
  {
    forall x ensures x in RemoveAll(s, xs) <==> x in s && x !in xs {
      RemoveAllCounts(s, xs, x);
    }
  }

  /** `removeAll` of a collection holding every element empties the list. */
  lemma {:induction false} RemoveAllCovered<T>(s: seq<T>, xs: seq<T>)
    requires forall i | 0 <= i < |s| :: s[i] in xs
    ensures RemoveAll(s, xs) == []
  {
    if s != [] {
      assert forall i | 0 <= i < |s[1..]| :: s[1..][i] == s[i + 1];
      RemoveAllCovered(s[1..], xs);
    }
  }

  /** `remove` keeps only elements the list held. */
  lemma RemoveFirstWithin<T>(s: seq<T>, x: T)
    ensures forall y | y in RemoveFirst(s, x) :: y in s
  {
    RemoveFirstCounts(s, x);
    forall y | y in RemoveFirst(s, x) ensures y in s {
      assert multiset(RemoveFirst(s, x))[y] > 0;
    }
  }

  /** The decimal digit for `d`. */
  function Digit(d: nat): char
    requires d < 10
  {
    "0123456789"[d]
  }

  predicate IsDigit(c: char)
  {
    '0' <= c <= '9'
  }

  predicate AllDigits(s: string)
  {
    forall i | 0 <= i < |s| :: IsDigit(s[i])
  }

  /** The decimal spelling of `n`, without leading zeros. */
  function NatString(n: nat): (s: string)
    ensures |s| >= 1 && AllDigits(s)
    ensures s[0] == '0' ==> s == "0"
  {
    if n < 10 then [Digit(n)] else NatString(n / 10) + [Digit(n % 10)]
  }

  /** `Integer.toString(n)`, which string concatenation with an `int` uses: a minus
      sign before the digits of a negative number. */
  function IntString(n: int): string
  {
    if n < 0 then "-" + NatString(-n) else NatString(n)
  }

  /** The number a string of decimal digits spells. */
  function DigitsValue(s: string): nat
    requires AllDigits(s)
  {
    if s == [] then 0
    else
      var d := s[|s| - 1] as int - '0' as int;
      assert d >= 0 by { assert IsDigit(s[|s| - 1]); }
      DigitsValue(s[..|s| - 1]) * 10 + d
  }

  /** `Integer.parseInt`, for the strings `IntString` produces. */
  function ParseInt(s: string): Option<int>
  {
    if s == [] then None
    else if s[0] == '-' then
      if |s| > 1 && AllDigits(s[1..]) then
        var v: int := 0 - DigitsValue(s[1..]) as int;
        Some(v)
      else None
    else if AllDigits(s) then
      var v: int := DigitsValue(s);
      Some(v)
    else None
  }

  /** Reading back the digits of `n` gives `n`. */
  lemma {:induction false} NatStringValue(n: nat)
    ensures DigitsValue(NatString(n)) == n
  {
    if n >= 10 {
      var s := NatString(n);
      assert s[..|s| - 1] == NatString(n / 10);
      NatStringValue(n / 10);
    }
  }

  /** Parsing what `Integer.toString` printed gives the number back. */
  lemma IntStringRoundTrip(n: int)
    ensures ParseInt(IntString(n)) == Some(n)
  {
    var d := NatString(if n < 0 then -n else n);
    assert IsDigit(d[0]);
    NatStringValue(if n < 0 then -n else n);
    if n < 0 {
      var s := "-" + d;
      assert s[0] == '-' && s[1..] == d;
    }
  }
}
