/** The Ruby `Array` operations the complex relies on, over sequences. */
module Lists {

  /** No element occurs twice. */
  ghost predicate NoDup<T(!new)>(s: seq<T>) {
    forall i, j :: 0 <= i < j < |s| ==> s[i] != s[j]
  }

  /** The position of the first occurrence of `x` in `s`, or `|s|` when
      there is none. */
  function First<T(==)>(s: seq<T>, x: T): (i: nat)
    ensures i <= |s| && (i < |s| <==> x in s)
    ensures i < |s| ==> s[i] == x
    ensures forall k :: 0 <= k < i ==> s[k] != x
  {
    if |s| == 0 then 0 else if s[0] == x then 0 else 1 + First(s[1..], x)
  }

  /** The first occurrence in a concatenation lies in the left part when
      the element occurs there, and is shifted past it otherwise. */
  lemma FirstAppend<T>(a: seq<T>, b: seq<T>, x: T)
    ensures First(a + b, x) == if x in a then First(a, x) else |a| + First(b, x)
  {
    var i := First(a + b, x);
    if x in a {
      var j := First(a, x);
      assert (a + b)[j] == x;
    } else {
      var j := First(b, x);
      if j < |b| {
        assert (a + b)[|a| + j] == x;
      }
      forall k | |a| <= k < |a| + j ensures (a + b)[k] != x {
        assert (a + b)[k] == b[k - |a|];
      }
    }
  }

  /** `Array#uniq`: keeps the first occurrence of every element, in the
      order of those first occurrences (see `DedupOrder`). */
  function Dedup<T(==,!new)>(s: seq<T>): (r: seq<T>)
    ensures forall x :: x in r <==> x in s
    ensures NoDup(r)
    ensures |r| <= |s|
  {
    if |s| == 0 then []
    else
      var rest := Dedup(s[..|s| - 1]);
      if s[|s| - 1] in rest then rest else rest + [s[|s| - 1]]
  }

  /** `uniq` lists the elements in the order of their first occurrences. */
  lemma {:induction false} DedupOrder<T(!new)>(s: seq<T>)
    ensures var r := Dedup(s);
      forall i, j :: 0 <= i < j < |r| ==> First(s, r[i]) < First(s, r[j])
  {
    if |s| > 0 {
      var init, last := s[..|s| - 1], s[|s| - 1];
      DedupOrder(init);
      assert s == init + [last];
      forall x | x in init ensures First(s, x) == First(init, x) {
        FirstAppend(init, [last], x);
      }
      if last !in Dedup(init) {
        FirstAppend(init, [last], last);
        assert Dedup(s) == Dedup(init) + [last];
      } else {
        assert Dedup(s) == Dedup(init);
      }
    }
  }

  /** A list without repetitions is its own `uniq`. */
  lemma {:induction false} DedupOfDistinct<T(!new)>(s: seq<T>)
    requires NoDup(s)
    ensures Dedup(s) == s
  {
    if |s| > 0 {
      var init := s[..|s| - 1];
      assert NoDup(init);
      DedupOfDistinct(init);
      assert s[|s| - 1] !in Dedup(init);
      assert Dedup(s) == init + [s[|s| - 1]];
      assert init + [s[|s| - 1]] == s;
    }
  }

  /** `uniq` keeps the first element in front. */
  lemma {:induction false} DedupFirst<T(!new)>(s: seq<T>)
    requires |s| > 0
    ensures |Dedup(s)| > 0 && Dedup(s)[0] == s[0]
  {
    if |s| > 1 {
      DedupFirst(s[..|s| - 1]);
    }
  }

  /** A list with one distinct value has a `uniq` of one element. */
  lemma DedupConstant<T(!new)>(s: seq<T>)
    requires |s| > 0 && forall i :: 0 <= i < |s| ==> s[i] == s[0]
    ensures Dedup(s) == [s[0]]
  {
    DedupFirst(s);
  }

  /** The second element of `uniq` is the first entry that differs from the
      first one. */
  lemma {:induction false} DedupSecond<T(!new)>(s: seq<T>, j: int)
    requires 0 < j < |s| && s[j] != s[0]
    requires forall i :: 0 < i < j ==> s[i] == s[0]
    ensures |Dedup(s)| >= 2 && Dedup(s)[1] == s[j]
  {
    var init := s[..|s| - 1];
    DedupFirst(init);
    if j < |s| - 1 {
      DedupSecond(init, j);
    } else {
      DedupConstant(init);
    }
  }

  /** `a & b`: the elements of `a` that are in `b`, first occurrences, in `a`'s order. */
  function Intersect<T(==,!new)>(a: seq<T>, b: seq<T>): (r: seq<T>)
    ensures forall x :: x in r <==> x in a && x in b
    ensures NoDup(r)
  {
    Dedup(Filter(a, b))
  }

  /** The elements of `a` that occur in `b`, in order, repetitions kept. */
  function Filter<T(==,!new)>(a: seq<T>, b: seq<T>): (r: seq<T>)
    ensures forall x :: x in r <==> x in a && x in b
  {
    if |a| == 0 then []
    else if a[0] in b then [a[0]] + Filter(a[1..], b)
    else Filter(a[1..], b)
  }

  /** `Array#delete(x)`: drops every occurrence of `x`, keeps the rest in order. */
  function RemoveAll<T(==,!new)>(s: seq<T>, x: T): (r: seq<T>)
    ensures forall y :: y in r <==> y in s && y != x
    ensures multiset(r) == multiset(s)[x := 0]
  {
    if |s| == 0 then []
    else
      assert s == [s[0]] + s[1..];
      if s[0] == x then RemoveAll(s[1..], x) else [s[0]] + RemoveAll(s[1..], x)
  }

  /** Removing an element that is not there changes nothing. */
  lemma {:induction false} RemoveAbsent<T(!new)>(s: seq<T>, x: T)
    requires x !in s
    ensures RemoveAll(s, x) == s
  {
    if |s| > 0 {
      assert x !in s[1..];
      RemoveAbsent(s[1..], x);
      assert s == [s[0]] + s[1..];
    }
  }

  /** The index of the first list of `ss` holding `x`, or `|ss|`. */
  function Home<T(==)>(ss: seq<seq<T>>, x: T): (k: nat)
    ensures k <= |ss| && (k < |ss| ==> x in ss[k])
    ensures forall i :: 0 <= i < k ==> x !in ss[i]
  {
    if |ss| == 0 then 0 else if x in ss[0] then 0 else 1 + Home(ss[1..], x)
  }

  /** `x` comes before `y` in reading order of `ss`: it first appears in an
      earlier list, or earlier in the same list. */
  predicate Before<T(==)>(ss: seq<seq<T>>, x: T, y: T) {
    var h := Home(ss, x);
    h < Home(ss, y) || (h == Home(ss, y) < |ss| && First(ss[h], x) < First(ss[h], y))
  }

  /** `Array#flatten` of one level: the lists read one after the other
      (see `FlattenOrder`). */
  function Flatten<T(==,!new)>(ss: seq<seq<T>>): (r: seq<T>)
    ensures forall x :: x in r <==> exists i :: 0 <= i < |ss| && x in ss[i]
  {
    if |ss| == 0 then []
    else
      var rest := Flatten(ss[1..]);
      assert forall x :: x in rest <==> exists i :: 1 <= i < |ss| && x in ss[i] by {
        forall x | x in rest ensures exists i :: 1 <= i < |ss| && x in ss[i] {
          var j :| 0 <= j < |ss[1..]| && x in ss[1..][j];
          assert x in ss[j + 1];
        }
        forall x | (exists i :: 1 <= i < |ss| && x in ss[i]) ensures x in rest {
          var i :| 1 <= i < |ss| && x in ss[i];
          assert x in ss[1..][i - 1];
        }
      }
      ss[0] + rest
  }

  /** One element first occurs before another in the flattened list exactly
      when it comes first in reading order of the lists. */
  lemma {:induction false} FlattenOrder<T(!new)>(ss: seq<seq<T>>)
    ensures forall x, y :: First(Flatten(ss), x) < First(Flatten(ss), y) <==> Before(ss, x, y)
  {
    if |ss| > 0 {
      var rest := Flatten(ss[1..]);
      FlattenOrder(ss[1..]);
      assert Flatten(ss) == ss[0] + rest;
      forall x, y ensures First(Flatten(ss), x) < First(Flatten(ss), y) <==> Before(ss, x, y) {
        FirstAppend(ss[0], rest, x);
        FirstAppend(ss[0], rest, y);
        if x !in ss[0] && y !in ss[0] {
          assert First(rest, x) < First(rest, y) <==> Before(ss[1..], x, y);
        }
      }
    }
  }

  /** The elements in the opposite order. */
  function Reverse<T>(s: seq<T>): (r: seq<T>)
    ensures |r| == |s| && forall i :: 0 <= i < |s| ==> r[i] == s[|s| - 1 - i]
  {
    if |s| == 0 then [] else Reverse(s[1..]) + [s[0]]
  }
}
