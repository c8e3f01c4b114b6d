/** Python's ordering of strings (code point by code point, a proper prefix
    first), the sorted, duplicate-free lists `sorted()` produces from a set,
    and insertion into such a list. */
module StringOrder {

  /** a sorts strictly before b. */
  predicate Below(a: string, b: string)
  {
    if |a| == 0 then |b| > 0
    else if |b| == 0 then false
    else a[0] < b[0] || (a[0] == b[0] && Below(a[1..], b[1..]))
  }

  lemma {:induction false} BelowIrreflexive(a: string)
    ensures !Below(a, a)
  {
    if |a| > 0 {
      BelowIrreflexive(a[1..]);
    }
  }

  lemma {:induction false} BelowTransitive(a: string, b: string, c: string)
    requires Below(a, b) && Below(b, c)
    ensures Below(a, c)
  {
    if |a| > 0 && a[0] == b[0] && b[0] == c[0] {
      BelowTransitive(a[1..], b[1..], c[1..]);
    }
  }

  /** Any two distinct strings are ordered one way or the other. */
  lemma {:induction false} BelowTotal(a: string, b: string)
    requires a != b
    ensures Below(a, b) || Below(b, a)
  {
    if |a| > 0 && |b| > 0 && a[0] == b[0] {
      assert a == [a[0]] + a[1..] && b == [b[0]] + b[1..];
      BelowTotal(a[1..], b[1..]);
    }
  }

  /** Ascending without duplicates. */
  predicate StrictlySorted(s: seq<string>)
  {
    forall i, j :: 0 <= i < j < |s| ==> Below(s[i], s[j])
  }

  function Elements(s: seq<string>): set<string>
  {
    set x | x in s
  }

  /** x inserted at its place in a sorted list (the list is unchanged when
      it already holds x). */
  function Insert(s: seq<string>, x: string): (r: seq<string>)
    requires StrictlySorted(s)
    ensures StrictlySorted(r)
    ensures Elements(r) == Elements(s) + {x}
  {
    if |s| == 0 then [x]
    else if s[0] == x then s
    else if Below(x, s[0]) then
      assert forall j :: 0 < j < |s| ==> Below(x, s[j]) by {
        forall j | 0 < j < |s| ensures Below(x, s[j]) {
          BelowTransitive(x, s[0], s[j]);
        }
      }
      [x] + s
    else
      BelowTotal(x, s[0]);
      var rest := Insert(s[1..], x);
      assert forall y :: y in rest ==> Below(s[0], y) by {
        forall y | y in rest ensures Below(s[0], y) {
          assert y in Elements(rest);
        }
      }
      assert Elements(s) == {s[0]} + Elements(s[1..]);
      assert Elements([s[0]] + rest) == {s[0]} + Elements(rest);
      [s[0]] + rest
  }

  /** A strictly sorted list holds no element twice, so its length is the
      number of its elements. */
  lemma {:induction false} SortedCardinality(s: seq<string>)
    requires StrictlySorted(s)
    ensures |Elements(s)| == |s|
  {
    if |s| > 0 {
      var rest := s[1..];
      SortedCardinality(rest);
      HeadNotInTail(s);
      assert Elements(s) == {s[0]} + Elements(rest);
    }
  }

  /** The head of a strictly sorted list does not recur in its tail. */
  lemma {:induction false} HeadNotInTail(s: seq<string>)
    requires StrictlySorted(s) && |s| > 0
    ensures s[0] !in Elements(s[1..])
    ensures Elements(s[1..]) == Elements(s) - {s[0]}
  {
    forall k | 0 <= k < |s| - 1 ensures s[1..][k] != s[0] {
      assert Below(s[0], s[k + 1]);
      BelowIrreflexive(s[0]);
    }
    assert s == [s[0]] + s[1..];
  }

  lemma {:induction false} ElementsEmpty(s: seq<string>)
    ensures Elements(s) == {} <==> |s| == 0
  {
    if |s| > 0 {
      assert s[0] in Elements(s);
    }
  }

  /** Two strictly sorted lists with the same elements are the same list:
      `sorted()` of a set is determined by the set. */
  lemma {:induction false} SortedUnique(s: seq<string>, t: seq<string>)
    requires StrictlySorted(s) && StrictlySorted(t) && Elements(s) == Elements(t)
    ensures s == t
  {
    ElementsEmpty(s);
    ElementsEmpty(t);
    if |s| > 0 {
      assert s[0] in Elements(t) && t[0] in Elements(s);
      if s[0] != t[0] {
        var i :| 0 <= i < |t| && t[i] == s[0];
        var j :| 0 <= j < |s| && s[j] == t[0];
        assert Below(t[0], s[0]) by {
          assert i > 0;
        }
        assert Below(s[0], t[0]) by {
          assert j > 0;
        }
        BelowTransitive(s[0], t[0], s[0]);
        BelowIrreflexive(s[0]);
      }
      HeadNotInTail(s);
      HeadNotInTail(t);
      SortedUnique(s[1..], t[1..]);
      assert s == [s[0]] + s[1..] && t == [t[0]] + t[1..];
    }
  }
}
