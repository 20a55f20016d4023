/**
  Ascending order on key names, used to enumerate a set of names in one fixed
  order.
 */
module Order {

  /** Strict lexicographic order on strings, by character code. */
  predicate Below(a: string, b: string)
    decreases |a|
  {
    |b| > 0 && (|a| == 0 || a[0] < b[0] || (a[0] == b[0] && Below(a[1..], b[1..])))
  }

  lemma {:induction false} BelowIrreflexive(a: string)
    ensures !Below(a, a)
    decreases |a|
  {
    if |a| > 0 {
      BelowIrreflexive(a[1..]);
    }
  }

  lemma {:induction false} BelowTransitive(a: string, b: string, c: string)
    requires Below(a, b) && Below(b, c)
    ensures Below(a, c)
    decreases |a|
  {
    if |a| > 0 && a[0] == b[0] && b[0] == c[0] {
      BelowTransitive(a[1..], b[1..], c[1..]);
    }
  }

  lemma {:induction false} BelowTotal(a: string, b: string)
    requires a != b
    ensures Below(a, b) || Below(b, a)
    decreases |a|
  {
    if |a| > 0 && |b| > 0 && a[0] == b[0] {
      assert a == [a[0]] + a[1..] && b == [b[0]] + b[1..];
      BelowTotal(a[1..], b[1..]);
    }
  }

  /** The names a sequence holds. */
  function Elems(s: seq<string>): set<string>
  {
    set x | x in s
  }

  predicate StrictlySorted(s: seq<string>)
  {
    forall i, j | 0 <= i < j < |s| :: Below(s[i], s[j])
  }

  lemma SortedDistinct(s: seq<string>)
    requires StrictlySorted(s)
    ensures forall i, j | 0 <= i < j < |s| :: s[i] != s[j]
  {
    forall i, j | 0 <= i < j < |s| ensures s[i] != s[j] {
      BelowIrreflexive(s[i]);
    }
  }

  /** A set of names has exactly one strictly ascending enumeration. */
  lemma {:induction false} SortedUnique(a: seq<string>, b: seq<string>)
    requires StrictlySorted(a) && StrictlySorted(b)
    requires Elems(a) == Elems(b)
    ensures a == b
    decreases |a|
  {
    assert b != [] ==> b[0] in Elems(b);
    if a != [] {
      assert a[0] in a;
      assert a[0] in Elems(a);
      assert a[0] in Elems(b);
      assert b != [];
      assert b[0] in b;
      assert b[0] in Elems(b);
      assert b[0] in Elems(a);
      if a[0] != b[0] {
        var i :| 0 <= i < |a| && a[i] == b[0];
        var j :| 0 <= j < |b| && b[j] == a[0];
        assert Below(a[0], b[0]) && Below(b[0], a[0]);
        BelowTransitive(a[0], b[0], a[0]);
        BelowIrreflexive(a[0]);
      }
      SortedDistinct(a);
      SortedDistinct(b);
      assert Elems(a[1..]) == Elems(a) - {a[0]} by {
        assert a == [a[0]] + a[1..];
      }
      assert Elems(b[1..]) == Elems(b) - {b[0]} by {
        assert b == [b[0]] + b[1..];
      }
      SortedUnique(a[1..], b[1..]);
      assert a == [a[0]] + a[1..] && b == [b[0]] + b[1..];
    }
  }

  /** The least name of a non-empty set. */
  method Least(names: set<string>) returns (m: string)
    requires names != {}
    ensures m in names
    ensures forall k | k in names && k != m :: Below(m, k)
  {
    m :| m in names;
    var rest := names - {m};
    while rest != {}
      invariant m in names && rest <= names && m !in rest
      invariant forall k | k in names - rest && k != m :: Below(m, k)
      decreases rest
    {
      var k :| k in rest;
      if Below(k, m) {
        forall k' | k' in names - rest && k' != k
          ensures Below(k, k')
        {
          if k' != m {
            BelowTransitive(k, m, k');
          }
        }
        m := k;
      } else {
        BelowTotal(k, m);
      }
      rest := rest - {k};
    }
  }
}
