/** Ordered sequences: the key order of a `BTreeMap`, for the `String` keys of the registry
    and for the `i64` keys of each enum's variant map. */
module Ordering {
  import Text

  /** The set of elements of a sequence. */
  function Elements<T>(s: seq<T>): (r: set<T>)
    ensures forall i :: 0 <= i < |s| ==> s[i] in r
    ensures forall x :: x in r ==> x in s
  {
    set x | x in s
  }

  /** Every element comes strictly before every later one. */
  predicate SortedBy<T>(s: seq<T>, lt: (T, T) -> bool)
  {
    forall i, j :: 0 <= i < j < |s| ==> lt(s[i], s[j])
  }

  ghost predicate Asymmetric<T(!new)>(lt: (T, T) -> bool)
  {
    forall x, y :: lt(x, y) ==> !lt(y, x)
  }

  /** A set has only one strictly sorted listing. */
  lemma {:induction false} SortedUnique<T(!new)>(s: seq<T>, t: seq<T>, lt: (T, T) -> bool)
    requires Asymmetric(lt)
    requires SortedBy(s, lt) && SortedBy(t, lt)
    requires Elements(s) == Elements(t)
    ensures s == t
  {
    if s != [] {
      assert s[0] in Elements(t);
    }
    if t != [] {
      assert t[0] in Elements(s);
    }
    if s != [] && t != [] {
      assert Elements(s[1..]) == Elements(s) - {s[0]} by {
        forall x | x in Elements(s) - {s[0]} ensures x in Elements(s[1..]) {
          var i :| 0 <= i < |s| && s[i] == x;
        }
        forall x | x in Elements(s[1..]) ensures x != s[0] {
          var i :| 0 <= i < |s[1..]| && s[1..][i] == x;
          assert lt(s[0], s[i + 1]);
        }
      }
      assert Elements(t[1..]) == Elements(t) - {t[0]} by {
        forall x | x in Elements(t) - {t[0]} ensures x in Elements(t[1..]) {
          var i :| 0 <= i < |t| && t[i] == x;
        }
        forall x | x in Elements(t[1..]) ensures x != t[0] {
          var i :| 0 <= i < |t[1..]| && t[1..][i] == x;
          assert lt(t[0], t[i + 1]);
        }
      }
      SortedUnique(s[1..], t[1..], lt);
      assert s == [s[0]] + s[1..] && t == [t[0]] + t[1..];
    }
  }

  /** The key order of the registry's `BTreeMap<String, Enum>`. */
  predicate StringsSorted(s: seq<string>)
  {
    SortedBy(s, Text.Less)
  }

  lemma StringOrderAsymmetric()
    ensures Asymmetric(Text.Less)
  {
    forall x, y | Text.Less(x, y) ensures !Text.Less(y, x) {
      Text.LessAsymmetric(x, y);
    }
  }

  /** Inserting `x` into a sequence adds exactly `x` to its elements. */
  lemma InsertElements<T>(s: seq<T>, i: nat, x: T)
    requires i <= |s|
    ensures Elements(s[..i] + [x] + s[i..]) == Elements(s) + {x}
  {
    assert s == s[..i] + s[i..];
    assert forall y :: y in s[..i] + [x] + s[i..] <==> y in s || y == x;
  }

  /** Putting `x` at index `i`, after every key below it and before the first key that is
      not below it (and differs from it), keeps the keys sorted. */
  lemma InsertKeepsSorted(s: seq<string>, i: nat, x: string)
    requires StringsSorted(s) && i <= |s|
    requires forall j :: 0 <= j < i ==> Text.Less(s[j], x)
    requires i < |s| ==> !Text.Less(s[i], x) && s[i] != x
    ensures StringsSorted(s[..i] + [x] + s[i..])
  {
    var t := s[..i] + [x] + s[i..];
    if i < |s| {
      Text.LessTotal(s[i], x);
    }
    forall a, b | 0 <= a < b < |t| ensures Text.Less(t[a], t[b]) {
      if b < i {
        assert t[a] == s[a] && t[b] == s[b];
      } else if b == i {
        assert t[a] == s[a] && t[b] == x;
      } else if a < i {
        assert t[a] == s[a] && t[b] == s[b - 1];
      } else if a == i {
        assert t[a] == x && t[b] == s[b - 1];
        if b - 1 > i {
          Text.LessTransitive(x, s[i], s[b - 1]);
        }
      } else {
        assert t[a] == s[a - 1] && t[b] == s[b - 1];
      }
    }
  }

  predicate IntLess(a: int, b: int)
  {
    a < b
  }

  /** The key order of a variant map `BTreeMap<i64, String>`. */
  predicate Increasing(s: seq<int>)
  {
    forall i, j :: 0 <= i < j < |s| ==> s[i] < s[j]
  }

  lemma IntOrderAsymmetric()
    ensures Asymmetric(IntLess)
  {
  }

  /** `SortedKeys` is the only increasing listing of a map's keys. */
  lemma SortedKeysUnique<V>(m: map<int, V>, ks: seq<int>)
    requires Increasing(ks) && Elements(ks) == m.Keys
    ensures SortedKeys(m) == ks
  {
    IntOrderAsymmetric();
    assert SortedBy(SortedKeys(m), IntLess) && SortedBy(ks, IntLess);
    SortedUnique(SortedKeys(m), ks, IntLess);
  }

  predicate IsMin(k: int, s: set<int>)
  {
    k in s && forall x :: x in s ==> k <= x
  }

  lemma {:induction false} MinExists(s: set<int>)
    requires s != {}
    ensures exists k :: IsMin(k, s)
    decreases s
  {
    assert exists x :: x in s by {
      if forall x :: x !in s {
        assert false;
      }
    }
    var x :| x in s;
    if s != {x} {
      MinExists(s - {x});
      var m :| IsMin(m, s - {x});
      var k := if x < m then x else m;
      forall y | y in s ensures k <= y {
        if y != x {
          assert y in s - {x};
        }
      }
      assert IsMin(k, s);
    } else {
      assert IsMin(x, s);
    }
  }

  /** The least element of a non-empty set of integers. */
  function Min(s: set<int>): (k: int)
    requires s != {}
    ensures k in s && forall x :: x in s ==> k <= x
  {
    MinExists(s);
    var k :| IsMin(k, s);
    k
  }

  lemma RemoveKey<V>(m: map<int, V>, k: int)
    requires k in m
    ensures (m - {k}).Keys == m.Keys - {k}
    ensures |m - {k}| == |m| - 1
  {
    assert (m - {k}).Keys == m.Keys - {k};
    assert |m.Keys - {k}| == |m.Keys| - 1;
  }

  lemma Cons(k: int, tail: seq<int>)
    requires Increasing(tail)
    requires forall x :: x in Elements(tail) ==> k < x
    ensures Increasing([k] + tail)
    ensures Elements([k] + tail) == {k} + Elements(tail)
  {
    var s := [k] + tail;
    forall i, j | 0 <= i < j < |s| ensures s[i] < s[j] {
      if i == 0 {
        assert s[j] == tail[j - 1] && tail[j - 1] in Elements(tail);
      } else {
        assert s[i] == tail[i - 1] && s[j] == tail[j - 1];
      }
    }
    assert forall x :: x in s <==> x == k || x in tail;
  }

  /** Putting the least key in front of an increasing listing of the other keys lists them all. */
  lemma SortedKeysStep<V>(m: map<int, V>, k: int, tail: seq<int>)
    requires k in m && forall x :: x in m ==> k <= x
    requires Increasing(tail) && Elements(tail) == m.Keys - {k}
    ensures Increasing([k] + tail)
    ensures Elements([k] + tail) == m.Keys
  {
    Cons(k, tail);
  }

  /** The keys of a variant map in the order a `BTreeMap` yields them. */
  function SortedKeys<V>(m: map<int, V>): (ks: seq<int>)
    ensures Increasing(ks)
    ensures Elements(ks) == m.Keys
    ensures |ks| == |m|
    decreases |m|
  {
    if |m| == 0 then
      assert m.Keys == {} by {
        if m.Keys != {} {
          assert false;
        }
      }
      []
    else
      var k := Min(m.Keys);
      RemoveKey(m, k);
      var tail := SortedKeys(m - {k});
      SortedKeysStep(m, k, tail);
      [k] + tail
  }
}
