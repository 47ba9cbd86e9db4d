/** Row-by-row filtering of scraped and merged tables.  Every table in the
    pipeline is built by a loop that looks at one input row at a time and
    appends at most one output row; `FilterMap` is that loop's meaning. */
module Seqs {
  import opened Wrappers

  /** The list holding an optional row, as `append` is or is not called. */
  function Emit<B>(o: Option<B>): (r: seq<B>)
    ensures |r| <= 1 && (r == [] <==> o.None?)
  {
    if o.Some? then [o.value] else []
  }

  /** The rows `f` produces, in input order, skipping the inputs it refuses. */
  function FilterMap<A, B>(s: seq<A>, f: A -> Option<B>): seq<B>
    decreases |s|
  {
    if s == [] then [] else FilterMap(s[..|s| - 1], f) + Emit(f(s[|s| - 1]))
  }

  /** One more input row: the loop step. */
  lemma FilterMapSnoc<A, B>(s: seq<A>, x: A, f: A -> Option<B>)
    ensures FilterMap(s + [x], f) == FilterMap(s, f) + Emit(f(x))
  {
    assert (s + [x])[..|s|] == s;
  }

  /** A single input row gives its own output row or nothing. */
  lemma FilterMapSingle<A, B>(x: A, f: A -> Option<B>)
    ensures FilterMap([x], f) == Emit(f(x))
  {
    assert [x][..0] == [];
  }

  /** Processing two tables one after the other is processing their
      concatenation: the output keeps the input order. */
  lemma {:induction false} FilterMapAppend<A, B>(a: seq<A>, b: seq<A>, f: A -> Option<B>)
    ensures FilterMap(a + b, f) == FilterMap(a, f) + FilterMap(b, f)
    decreases |b|
  {
    if b == [] {
      assert a + b == a;
    } else {
      var init, last := b[..|b| - 1], b[|b| - 1];
      assert b == init + [last];
      assert a + b == (a + init) + [last];
      calc {
        FilterMap(a + b, f);
        { FilterMapSnoc(a + init, last, f); }
        FilterMap(a + init, f) + Emit(f(last));
        { FilterMapAppend(a, init, f); }
        (FilterMap(a, f) + FilterMap(init, f)) + Emit(f(last));
        FilterMap(a, f) + (FilterMap(init, f) + Emit(f(last)));
        { FilterMapSnoc(init, last, f); }
        FilterMap(a, f) + FilterMap(b, f);
      }
    }
  }

  /** When `f` turns every row into `g` of it, the output is `g` mapped
      over the input. */
  lemma {:induction false} FilterMapAllKept<A, B>(s: seq<A>, f: A -> Option<B>, g: A -> B)
    requires forall i :: 0 <= i < |s| ==> f(s[i]) == Some(g(s[i]))
    ensures FilterMap(s, f) == Map(s, g)
    decreases |s|
  {
    if s != [] {
      var init := s[..|s| - 1];
      FilterMapAllKept(init, f, g);
      assert Map(s, g) == Map(init, g) + [g(s[|s| - 1])];
    }
  }

  /** When `f` refuses every row, the output is empty. */
  lemma {:induction false} FilterMapNoneKept<A, B>(s: seq<A>, f: A -> Option<B>)
    requires forall i :: 0 <= i < |s| ==> f(s[i]).None?
    ensures FilterMap(s, f) == []
    decreases |s|
  {
    if s != [] {
      FilterMapNoneKept(s[..|s| - 1], f);
    }
  }

  /** Never more output rows than input rows. */
  lemma {:induction false} FilterMapLength<A, B>(s: seq<A>, f: A -> Option<B>)
    ensures |FilterMap(s, f)| <= |s|
    decreases |s|
  {
    if s != [] {
      FilterMapLength(s[..|s| - 1], f);
    }
  }

  /** An output row is exactly what `f` makes of some input row. */
  lemma {:induction false} FilterMapMember<A, B>(s: seq<A>, f: A -> Option<B>, y: B)
    ensures y in FilterMap(s, f) <==> exists i :: 0 <= i < |s| && f(s[i]) == Some(y)
    decreases |s|
  {
    if s != [] {
      var init, last := s[..|s| - 1], s[|s| - 1];
      FilterMapMember(init, f, y);
      assert FilterMap(s, f) == FilterMap(init, f) + Emit(f(last));
      assert s == init + [last];
      ProducedSnoc(s, init, last, f, y);
    }
  }

  /** Some row of `s` makes `y` exactly when some row before the last does
      or the last one does. */
  lemma ProducedSnoc<A, B>(s: seq<A>, init: seq<A>, last: A, f: A -> Option<B>, y: B)
    requires s == init + [last]
    ensures (exists i :: 0 <= i < |s| && f(s[i]) == Some(y)) <==>
      (exists i :: 0 <= i < |init| && f(init[i]) == Some(y)) || f(last) == Some(y)
  {
    if exists i :: 0 <= i < |init| && f(init[i]) == Some(y) {
      var i :| 0 <= i < |init| && f(init[i]) == Some(y);
      assert s[i] == init[i];
    }
    if f(last) == Some(y) {
      assert s[|s| - 1] == last;
    }
    if exists i :: 0 <= i < |s| && f(s[i]) == Some(y) {
      var i :| 0 <= i < |s| && f(s[i]) == Some(y);
      if i < |init| {
        assert init[i] == s[i];
      }
    }
  }

  /** The step of a loop that has processed the first `i` rows into `out`
      and now appends what `f` makes of row `i`. */
  lemma FilterMapStep<A, B>(rows: seq<A>, i: nat, out: seq<B>, f: A -> Option<B>)
    requires i < |rows| && out == FilterMap(rows[..i], f)
    ensures out + Emit(f(rows[i])) == FilterMap(rows[..i + 1], f)
  {
    FilterMapSnoc(rows[..i], rows[i], f);
    assert rows[..i + 1] == rows[..i] + [rows[i]];
  }

  /** One output row per input row. */
  function Map<A, B>(s: seq<A>, f: A -> B): (r: seq<B>)
    ensures |r| == |s| && forall k :: 0 <= k < |s| ==> r[k] == f(s[k])
  {
    seq(|s|, k requires 0 <= k < |s| => f(s[k]))
  }

  lemma MapStep<A, B>(rows: seq<A>, i: nat, out: seq<B>, f: A -> B)
    requires i < |rows| && out == Map(rows[..i], f)
    ensures out + [f(rows[i])] == Map(rows[..i + 1], f)
  {
  }

  /** The rows of `s` that satisfy `p`, in order. */
  function Filter<T>(s: seq<T>, p: T -> bool): seq<T>
    decreases |s|
  {
    if s == [] then [] else Filter(s[..|s| - 1], p) + (if p(s[|s| - 1]) then [s[|s| - 1]] else [])
  }

  lemma FilterSnoc<T>(s: seq<T>, x: T, p: T -> bool)
    ensures Filter(s + [x], p) == Filter(s, p) + (if p(x) then [x] else [])
  {
    assert (s + [x])[..|s|] == s;
  }

  /** The step of a filtering loop that has kept `out` from the first `i`
      rows and now looks at row `i`. */
  lemma FilterStep<T>(rows: seq<T>, i: nat, out: seq<T>, p: T -> bool)
    requires i < |rows| && out == Filter(rows[..i], p)
    ensures out + (if p(rows[i]) then [rows[i]] else []) == Filter(rows[..i + 1], p)
  {
    FilterSnoc(rows[..i], rows[i], p);
    assert rows[..i + 1] == rows[..i] + [rows[i]];
  }

  lemma {:induction false} FilterAppend<T>(a: seq<T>, b: seq<T>, p: T -> bool)
    ensures Filter(a + b, p) == Filter(a, p) + Filter(b, p)
    decreases |b|
  {
    if b == [] {
      assert a + b == a;
    } else {
      var init, last := b[..|b| - 1], b[|b| - 1];
      assert b == init + [last];
      assert a + b == (a + init) + [last];
      var tail := if p(last) then [last] else [];
      calc {
        Filter(a + b, p);
        { FilterSnoc(a + init, last, p); }
        Filter(a + init, p) + tail;
        { FilterAppend(a, init, p); }
        (Filter(a, p) + Filter(init, p)) + tail;
        Filter(a, p) + (Filter(init, p) + tail);
        { FilterSnoc(init, last, p); }
        Filter(a, p) + Filter(b, p);
      }
    }
  }

  /** A row is kept exactly when it is in the input and satisfies `p`. */
  lemma {:induction false} FilterMember<T>(s: seq<T>, p: T -> bool, x: T)
    ensures x in Filter(s, p) <==> x in s && p(x)
    decreases |s|
  {
    if s != [] {
      var init := s[..|s| - 1];
      FilterMember(init, p, x);
      assert s == init + [s[|s| - 1]];
    }
  }
}
