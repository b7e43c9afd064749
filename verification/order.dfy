/** Python's ordering of `str` values (code point by code point, a proper
    prefix first) and `sorted()` applied to a set of strings. */
module Order {

  /** `a < b` on Python strings. */
  predicate Less(a: string, b: string)
    decreases |a|
  {
    if a == [] then b != []
    else if b == [] then false
    else if a[0] != b[0] then a[0] < b[0]
    else Less(a[1..], b[1..])
  }

  lemma {:induction false} LessIrreflexive(a: string)
    ensures !Less(a, a)
    decreases |a|
  {
    if a != [] {
      LessIrreflexive(a[1..]);
    }
  }

  lemma {:induction false} LessTransitive(a: string, b: string, c: string)
    requires Less(a, b) && Less(b, c)
    ensures Less(a, c)
    decreases |a|
  {
    if a != [] && a[0] == b[0] && b[0] == c[0] {
      LessTransitive(a[1..], b[1..], c[1..]);
    }
  }

  lemma {:induction false} LessTotal(a: string, b: string)
    requires a != b
    ensures Less(a, b) || Less(b, a)
    decreases |a|
  {
    if a != [] && b != [] && a[0] == b[0] {
      assert a == [a[0]] + a[1..] && b == [b[0]] + b[1..];
      LessTotal(a[1..], b[1..]);
    }
  }

  lemma LessAsymmetric(a: string, b: string)
    requires Less(a, b)
    ensures !Less(b, a)
  {
    if Less(b, a) {
      LessTransitive(a, b, a);
      LessIrreflexive(a);
    }
  }

  /** Ascending without repeats: what `sorted(set(...))` produces. */
  predicate StrictlySorted(s: seq<string>) {
    forall i, j :: 0 <= i < j < |s| ==> Less(s[i], s[j])
  }

  predicate IsLeast(m: string, s: set<string>) {
    m in s && forall x :: x in s && x != m ==> Less(m, x)
  }

  /** Every finite non-empty set of strings has a least element. */
  lemma {:induction false} LeastExists(s: set<string>) returns (m: string)
    requires s != {}
    ensures IsLeast(m, s)
    decreases s
  {
    var y :| y in s;
    if s == {y} {
      m := y;
    } else {
      var m' := LeastExists(s - {y});
      if Less(y, m') {
        m := y;
        forall x | x in s && x != y
          ensures Less(y, x)
        {
          if x != m' {
            LessTransitive(y, m', x);
          }
        }
      } else {
        LessTotal(y, m');
        m := m';
      }
    }
  }

  /** `sorted(s)` for a set of strings: its elements, ascending. */
  method SortedDistinct(s: set<string>) returns (r: seq<string>)
    ensures StrictlySorted(r)
    ensures forall x :: x in r <==> x in s
  {
    r := [];
    var rest := s;
    while rest != {}
      invariant rest <= s
      invariant forall x :: x in s <==> x in r || x in rest
      invariant StrictlySorted(r)
      invariant forall i, x :: 0 <= i < |r| && x in rest ==> Less(r[i], x)
      decreases rest
    {
      ghost var least := LeastExists(rest);
      var m :| IsLeast(m, rest);
      assert IsLeast(m, rest);
      assert rest - {m} < rest;
      forall i, x | 0 <= i < |r| + 1 && x in rest - {m}
        ensures Less((r + [m])[i], x)
      {
        if i < |r| {
          assert (r + [m])[i] == r[i];
        }
      }
      r := r + [m];
      rest := rest - {m};
    }
  }

  /** Two ascending repeat-free lists with the same elements are the same
      list, so the order of the elements is fixed by the set alone. */
  lemma {:induction false} SortedUnique(a: seq<string>, b: seq<string>)
    requires StrictlySorted(a) && StrictlySorted(b)
    requires forall x :: x in a <==> x in b
    ensures a == b
    decreases |a|
  {
    if b != [] {
      assert b[0] in a;
    }
    if a != [] {
      assert a[0] in b;
      assert b != [];
      if a[0] != b[0] {
        assert b[0] in a;
        var i :| 0 <= i < |a| && a[i] == b[0];
        var j :| 0 <= j < |b| && b[j] == a[0];
        assert Less(a[0], a[i]);
        assert Less(b[0], b[j]);
        LessAsymmetric(a[0], b[0]);
        assert false;
      }
      forall x
        ensures x in a[1..] <==> x in b[1..]
      {
        if x in a[1..] {
          assert x in a;
          var j :| 0 <= j < |b| && b[j] == x;
          if j == 0 {
            LessIrreflexive(x);
          }
          assert b[1..][j - 1] == x;
        }
        if x in b[1..] {
          assert x in b;
          var i :| 0 <= i < |a| && a[i] == x;
          if i == 0 {
            LessIrreflexive(x);
          }
          assert a[1..][i - 1] == x;
        }
      }
      SortedUnique(a[1..], b[1..]);
    }
  }
}
