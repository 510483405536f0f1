/** Sequence utilities shared by the two decoders and the two renderers:
    an order-preserving filter-map, a filter, and a string join. */
module Seqs {
  import opened Wrappers

  /** f may be applied to every element of s. */
  ghost predicate Defined<T, U>(f: T --> U, s: seq<T>)
  {
    forall i | 0 <= i < |s| :: f.requires(s[i])
  }

  /** Keeps, in order, the values f yields for the elements of s, dropping the
      elements for which f yields None. */
  function FilterMap<T, U>(f: T --> Option<U>, s: seq<T>): (r: seq<U>)
    requires Defined(f, s)
    ensures |r| <= |s|
  {
    if s == [] then []
    else
      var rest := FilterMap(f, s[1..]);
      match f(s[0])
      case None => rest
      case Some(y) => [y] + rest
  }

  /** An element that f skips contributes nothing, one that f keeps contributes exactly its image. */
  lemma FilterMapSingleton<T, U>(f: T --> Option<U>, x: T)
    requires f.requires(x)
    ensures Defined(f, [x])
    ensures FilterMap(f, [x]) == (if f(x).Some? then [f(x).value] else [])
  {
    assert [x][1..] == [];
  }

  /** The result for a non-empty sequence: the image of the first element, if any,
      then the result for the rest. */
  lemma FilterMapCons<T, U>(f: T --> Option<U>, s: seq<T>)
    requires Defined(f, s) && s != []
    ensures Defined(f, s[1..])
    ensures FilterMap(f, s) == (if f(s[0]).Some? then [f(s[0]).value] else []) + FilterMap(f, s[1..])
  {
    assert forall i | 0 <= i < |s| - 1 :: s[1..][i] == s[i + 1];
  }

  /** Filter-map distributes over concatenation: the result for a + b is
      the result for a followed by the result for b. */
  lemma {:induction false} FilterMapAppend<T, U>(f: T --> Option<U>, a: seq<T>, b: seq<T>)
    requires Defined(f, a) && Defined(f, b)
    ensures Defined(f, a + b)
    ensures FilterMap(f, a + b) == FilterMap(f, a) + FilterMap(f, b)
  {
    assert Defined(f, a + b) by {
      forall i | 0 <= i < |a + b| ensures f.requires((a + b)[i]) {
        if i < |a| { assert (a + b)[i] == a[i]; } else { assert (a + b)[i] == b[i - |a|]; }
      }
    }
    if a == [] {
      assert a + b == b;
    } else {
      assert (a + b)[1..] == a[1..] + b;
      assert (a + b)[0] == a[0];
      FilterMapAppend(f, a[1..], b);
    }
  }

  /** Appending one element appends its image, if any. */
  lemma FilterMapSnoc<T, U>(f: T --> Option<U>, s: seq<T>, x: T)
    requires Defined(f, s) && f.requires(x)
    ensures Defined(f, s + [x])
    ensures FilterMap(f, s + [x]) == FilterMap(f, s) + (if f(x).Some? then [f(x).value] else [])
  {
    FilterMapSingleton(f, x);
    FilterMapAppend(f, s, [x]);
  }

  /** y is in the result exactly when f yields y for some element. */
  lemma {:induction false} FilterMapMember<T, U>(f: T --> Option<U>, s: seq<T>, y: U)
    requires Defined(f, s)
    ensures y in FilterMap(f, s) <==> exists i :: 0 <= i < |s| && f(s[i]) == Some(y)
  {
    if s != [] {
      FilterMapMember(f, s[1..], y);
      if exists i :: 0 <= i < |s| && f(s[i]) == Some(y) {
        var i :| 0 <= i < |s| && f(s[i]) == Some(y);
        if i > 0 { assert s[1..][i - 1] == s[i]; }
      }
      if exists i :: 0 <= i < |s[1..]| && f(s[1..][i]) == Some(y) {
        var i :| 0 <= i < |s[1..]| && f(s[1..][i]) == Some(y);
        assert s[i + 1] == s[1..][i];
      }
    }
  }

  /** The result is empty exactly when f keeps no element. */
  lemma {:induction false} FilterMapEmpty<T, U>(f: T --> Option<U>, s: seq<T>)
    requires Defined(f, s)
    ensures FilterMap(f, s) == [] <==> forall i :: 0 <= i < |s| ==> f(s[i]).None?
  {
    if s != [] {
      FilterMapEmpty(f, s[1..]);
      assert forall i :: 1 <= i < |s| ==> s[i] == s[1..][i - 1];
    }
  }

  /** Relative order is kept: the images of two kept elements appear in their input order. */
  lemma FilterMapOrder<T, U>(f: T --> Option<U>, s: seq<T>, i: int, j: int)
    requires Defined(f, s)
    requires 0 <= i < j < |s| && f(s[i]).Some? && f(s[j]).Some?
    ensures exists k1, k2 :: 0 <= k1 < k2 < |FilterMap(f, s)|
                             && FilterMap(f, s)[k1] == f(s[i]).value
                             && FilterMap(f, s)[k2] == f(s[j]).value
  {
    var a, b := s[..j], s[j..];
    assert s == a + b;
    FilterMapAppend(f, a, b);
    assert a[i] == s[i];
    FilterMapMember(f, a, f(s[i]).value);
    var k1 :| 0 <= k1 < |FilterMap(f, a)| && FilterMap(f, a)[k1] == f(s[i]).value;
    assert b[0] == s[j];
    assert FilterMap(f, b)[0] == f(s[j]).value;
    var k2 := |FilterMap(f, a)|;
    assert FilterMap(f, s)[k1] == f(s[i]).value;
    assert FilterMap(f, s)[k2] == f(s[j]).value;
  }

  /** The elements of s that satisfy p, in order. */
  function Filter<T>(p: T -> bool, s: seq<T>): (r: seq<T>)
    ensures |r| <= |s|
    ensures forall x | x in r :: x in s && p(x)
    ensures forall i | 0 <= i < |s| && p(s[i]) :: s[i] in r
  {
    if s == [] then []
    else if p(s[0]) then [s[0]] + Filter(p, s[1..])
    else Filter(p, s[1..])
  }

  /** The filter of a non-empty sequence: the first element if it passes, then
      the filter of the rest. */
  lemma FilterCons<T>(p: T -> bool, s: seq<T>)
    requires s != []
    ensures Filter(p, s) == (if p(s[0]) then [s[0]] else []) + Filter(p, s[1..])
  {
  }

  /** Filtering distributes over concatenation. */
  lemma {:induction false} FilterAppend<T>(p: T -> bool, a: seq<T>, b: seq<T>)
    ensures Filter(p, a + b) == Filter(p, a) + Filter(p, b)
  {
    if a == [] {
      assert a + b == b;
    } else {
      assert (a + b)[1..] == a[1..] + b;
      assert (a + b)[0] == a[0];
      FilterAppend(p, a[1..], b);
    }
  }

  /** Filtering keeps everything when every element passes. */
  lemma {:induction false} FilterAll<T>(p: T -> bool, s: seq<T>)
    requires forall i | 0 <= i < |s| :: p(s[i])
    ensures Filter(p, s) == s
  {
    if s != [] {
      FilterAll(p, s[1..]);
      assert [s[0]] + s[1..] == s;
    }
  }

  /** Filtering first with a p that passes every element f keeps changes nothing. */
  lemma {:induction false} FilterMapOfFilter<T, U>(f: T --> Option<U>, p: T -> bool, s: seq<T>)
    requires Defined(f, s)
    requires forall i | 0 <= i < |s| :: !p(s[i]) ==> f(s[i]) == None
    ensures Defined(f, Filter(p, s))
    ensures FilterMap(f, Filter(p, s)) == FilterMap(f, s)
  {
    if s != [] {
      assert forall i | 0 <= i < |s[1..]| :: s[1..][i] == s[i + 1];
      FilterMapOfFilter(f, p, s[1..]);
      if p(s[0]) {
        var t := [s[0]] + Filter(p, s[1..]);
        assert t[1..] == Filter(p, s[1..]);
        assert forall i | 1 <= i < |t| :: t[i] == t[1..][i - 1];
      }
    }
  }

  /** f applied to every element of s, in order. */
  function Map<T, U>(f: T -> U, s: seq<T>): (r: seq<U>)
    ensures |r| == |s|
    ensures forall i | 0 <= i < |s| :: r[i] == f(s[i])
  {
    seq(|s|, i requires 0 <= i < |s| => f(s[i]))
  }

  /** The image of a non-empty sequence: the first image, then the images of the rest. */
  lemma MapCons<T, U>(f: T -> U, s: seq<T>)
    requires s != []
    ensures Map(f, s)[0] == f(s[0])
    ensures Map(f, s)[1..] == Map(f, s[1..])
  {
    forall i | 0 <= i < |s| - 1 ensures Map(f, s)[1..][i] == Map(f, s[1..])[i] {
      assert s[1..][i] == s[i + 1];
    }
  }

  /** The image of s + [x] is the image of s followed by f(x). */
  lemma MapSnoc<T, U>(f: T -> U, s: seq<T>, x: T)
    ensures Map(f, s + [x]) == Map(f, s) + [f(x)]
  {
    assert forall i | 0 <= i < |s| :: (s + [x])[i] == s[i];
  }

  /** The parts separated by sep, as Rust's join on a slice of strings. */
  function Join(parts: seq<string>, sep: string): string
  {
    if |parts| == 0 then ""
    else if |parts| == 1 then parts[0]
    else parts[0] + sep + Join(parts[1..], sep)
  }

  /** The first part, then the separator and the join of the rest, if any. */
  lemma JoinCons(parts: seq<string>, sep: string)
    requires parts != []
    ensures Join(parts, sep) == parts[0] + (if |parts| == 1 then "" else sep + Join(parts[1..], sep))
  {
  }

  /** Three parts joined. */
  lemma JoinThree(a: string, b: string, c: string, sep: string)
    ensures Join([a, b, c], sep) == a + (sep + (b + (sep + c)))
  {
    JoinCons([a, b, c], sep);
    assert [a, b, c][1..] == [b, c];
    JoinCons([b, c], sep);
    assert [b, c][1..] == [c];
    JoinCons([c], sep);
  }

  /** Appending a part appends the separator and the part. */
  lemma {:induction false} JoinSnoc(parts: seq<string>, x: string, sep: string)
    requires parts != []
    ensures Join(parts + [x], sep) == Join(parts, sep) + sep + x
  {
    if |parts| == 1 {
      assert (parts + [x])[1..] == [x];
    } else {
      assert (parts + [x])[1..] == parts[1..] + [x];
      JoinSnoc(parts[1..], x, sep);
    }
  }

  /** Two non-empty sequences with the same first element and the same rest are equal. */
  lemma HeadTailEqual<T>(s: seq<T>, t: seq<T>)
    requires s != [] && t != [] && s[0] == t[0] && s[1..] == t[1..]
    ensures s == t
  {
    assert s == [s[0]] + s[1..] && t == [t[0]] + t[1..];
  }

  /** Concatenation is associative. */
  lemma AppendAssoc<T>(a: seq<T>, b: seq<T>, c: seq<T>)
    ensures (a + b) + c == a + (b + c)
  {
  }

  /** A value that does not contain the delimiter d ends exactly where d first occurs,
      so whatever follows d is determined too. */
  lemma CutAtDelimiter<T>(d: T, u1: seq<T>, r1: seq<T>, u2: seq<T>, r2: seq<T>)
    requires d !in u1 && d !in u2
    requires u1 + ([d] + r1) == u2 + ([d] + r2)
    ensures u1 == u2 && r1 == r2
  {
    var s := u1 + ([d] + r1);
    var t := u2 + ([d] + r2);
    assert s[|u1|] == d && t[|u2|] == d;
    assert u1 == s[..|u1|];
    assert u2 == t[..|u2|];
    assert r1 == s[|u1| + 1..];
    assert r2 == t[|u2| + 1..];
  }
}
