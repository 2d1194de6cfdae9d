/** The two lodash collection helpers the watcher uses: `_.union` and `_.some`. */
module Lodash {

  predicate NoDuplicates<T(==,!new)>(s: seq<T>) {
    forall i, j :: 0 <= i < j < |s| ==> s[i] != s[j]
  }

  /** The first position of `x` in `s`. */
  function FirstIndex<T(==,!new)>(s: seq<T>, x: T): (k: nat)
    requires x in s
    ensures k < |s| && s[k] == x && x !in s[..k]
  {
    if s[0] == x then 0
    else
      var k' := FirstIndex(s[1..], x);
      assert s[..k' + 1] == [s[0]] + s[1..][..k'];
      k' + 1
  }

  /** Keeps the first occurrence of every value, in the order of those first
      occurrences (lodash's baseUniq with SameValueZero equality). */
  function Dedup<T(==,!new)>(s: seq<T>): (r: seq<T>)
    ensures forall x :: x in r <==> x in s
  {
    if s == [] then []
    else
      var d := Dedup(s[..|s| - 1]);
      var x := s[|s| - 1];
      assert forall y :: y in s <==> y in s[..|s| - 1] || y == x by {
        assert s == s[..|s| - 1] + [x];
      }
      if x in d then d else d + [x]
  }

  /** The elements of `s` that do not occur in `excluded`, in order. */
  function Without<T(==,!new)>(s: seq<T>, excluded: seq<T>): (r: seq<T>)
    ensures forall x :: x in r <==> x in s && x !in excluded
  {
    if s == [] then []
    else
      var x := s[|s| - 1];
      var init := Without(s[..|s| - 1], excluded);
      assert forall y :: y in s <==> y in s[..|s| - 1] || y == x by {
        assert s == s[..|s| - 1] + [x];
      }
      if x in excluded then init else init + [x]
  }

  /** An argument of `_.union`: an array, or any other value. */
  datatype UnionArg<T> = Values(values: seq<T>) | Scalar(value: T)

  /** lodash flattens the arguments of `_.union` one level, keeping only those
      that are array-like objects; any other argument is dropped. */
  function FlattenArrays<T(!new)>(args: seq<UnionArg<T>>): (r: seq<T>)
    ensures forall x :: x in r <==> exists i :: 0 <= i < |args| && args[i].Values? && x in args[i].values
  {
    if args == [] then []
    else
      var rest := FlattenArrays(args[1..]);
      assert forall i :: 1 <= i < |args| ==> args[i] == args[1..][i - 1];
      match args[0]
      case Values(vs) => vs + rest
      case Scalar(_) => rest
  }

  /** `_.union(...args)`: the distinct values of the array arguments, in order of
      first occurrence. */
  function Union<T(==,!new)>(args: seq<UnionArg<T>>): (r: seq<T>)
    ensures forall x :: x in r <==> exists i :: 0 <= i < |args| && args[i].Values? && x in args[i].values
    ensures NoDuplicates(r)
  {
    DedupNoDuplicates(FlattenArrays(args));
    Dedup(FlattenArrays(args))
  }

  /** `_.some(xs, pred)`: whether some element satisfies `pred`, checked in order
      and stopping at the first that does. */
  function Some<T>(xs: seq<T>, pred: T -> bool): (r: bool)
    ensures r <==> exists i :: 0 <= i < |xs| && pred(xs[i])
  {
    if xs == [] then false
    else pred(xs[0]) || Some(xs[1..], pred)
  }

  // ---------------------------------------------------------------------------
  // Lemmas

  /** Deduplicating one more value appends it unless it was already seen. */
  lemma DedupSnoc<T(!new)>(s: seq<T>, x: T)
    ensures Dedup(s + [x]) == if x in Dedup(s) then Dedup(s) else Dedup(s) + [x]
  {
    var all := s + [x];
    assert all[..|all| - 1] == s && all[|all| - 1] == x;
  }

  /** Deduplication repeats no value. */
  lemma {:induction false} DedupNoDuplicates<T(!new)>(s: seq<T>)
    ensures NoDuplicates(Dedup(s))
  {
    if s != [] {
      var init, x := s[..|s| - 1], s[|s| - 1];
      assert s == init + [x];
      DedupNoDuplicates(init);
      DedupSnoc(init, x);
    }
  }

  lemma WithoutSnoc<T(!new)>(s: seq<T>, x: T, excluded: seq<T>)
    ensures Without(s + [x], excluded) == if x in excluded then Without(s, excluded) else Without(s, excluded) + [x]
  {
    var all := s + [x];
    assert all[..|all| - 1] == s && all[|all| - 1] == x;
  }

  /** Deduplicating a concatenation keeps the first part's distinct values first,
      followed by the second part's values that the first part did not have. */
  lemma {:induction false} DedupAppend<T(!new)>(a: seq<T>, b: seq<T>)
    ensures Dedup(a + b) == Dedup(a) + Without(Dedup(b), a)
  {
    if b == [] {
      assert a + b == a;
    } else {
      var b' := b[..|b| - 1];
      var x := b[|b| - 1];
      assert b == b' + [x];
      DedupAppend(a, b');
      DedupAppendStep(a, b', x);
    }
  }

  /** The inductive step of `DedupAppend`: one more value in the second part. */
  lemma DedupAppendStep<T(!new)>(a: seq<T>, b': seq<T>, x: T)
    requires Dedup(a + b') == Dedup(a) + Without(Dedup(b'), a)
    ensures Dedup(a + (b' + [x])) == Dedup(a) + Without(Dedup(b' + [x]), a)
  {
    assert a + (b' + [x]) == (a + b') + [x];
    if x in b' {
      DedupAppendSeenSecond(a, b', x);
    } else if x in a {
      DedupAppendSeenFirst(a, b', x);
    } else {
      DedupAppendNew(a, b', x);
    }
  }

  lemma DedupAppendSeenSecond<T(!new)>(a: seq<T>, b': seq<T>, x: T)
    requires Dedup(a + b') == Dedup(a) + Without(Dedup(b'), a)
    requires x in b'
    ensures Dedup((a + b') + [x]) == Dedup(a) + Without(Dedup(b' + [x]), a)
  {
    DedupSnoc(a + b', x);
    DedupSnoc(b', x);
    assert x in Dedup(b');
    assert x in Dedup(a + b');
  }

  lemma DedupAppendSeenFirst<T(!new)>(a: seq<T>, b': seq<T>, x: T)
    requires Dedup(a + b') == Dedup(a) + Without(Dedup(b'), a)
    requires x in a && x !in b'
    ensures Dedup((a + b') + [x]) == Dedup(a) + Without(Dedup(b' + [x]), a)
  {
    DedupSnoc(a + b', x);
    DedupSnoc(b', x);
    assert x !in Dedup(b');
    assert x in Dedup(a + b');
    WithoutSnoc(Dedup(b'), x, a);
  }

  lemma DedupAppendNew<T(!new)>(a: seq<T>, b': seq<T>, x: T)
    requires Dedup(a + b') == Dedup(a) + Without(Dedup(b'), a)
    requires x !in a && x !in b'
    ensures Dedup((a + b') + [x]) == Dedup(a) + Without(Dedup(b' + [x]), a)
  {
    var da, w := Dedup(a), Without(Dedup(b'), a);
    calc {
      Dedup((a + b') + [x]);
    == { DedupSnocNew(a + b', x); }
      Dedup(a + b') + [x];
    ==
      (da + w) + [x];
    ==
      da + (w + [x]);
    == { WithoutDedupSnocNew(b', x, a); }
      da + Without(Dedup(b' + [x]), a);
    }
  }

  lemma DedupSnocNew<T(!new)>(s: seq<T>, x: T)
    requires x !in s
    ensures Dedup(s + [x]) == Dedup(s) + [x]
  {
    DedupSnoc(s, x);
  }

  lemma WithoutDedupSnocNew<T(!new)>(s: seq<T>, x: T, excluded: seq<T>)
    requires x !in s && x !in excluded
    ensures Without(Dedup(s + [x]), excluded) == Without(Dedup(s), excluded) + [x]
  {
    DedupSnocNew(s, x);
    WithoutSnoc(Dedup(s), x, excluded);
  }

  lemma {:induction false} FirstIndexOfPrefix<T(!new)>(s: seq<T>, y: T, x: T)
    requires x in s
    ensures FirstIndex(s + [y], x) == FirstIndex(s, x)
  {
    if s[0] != x {
      assert (s + [y])[1..] == s[1..] + [y];
      FirstIndexOfPrefix(s[1..], y, x);
    }
  }

  /** The values of `Dedup(s)` stand in the order of their first occurrences in `s`. */
  lemma {:induction false} DedupFirstOccurrenceOrder<T(!new)>(s: seq<T>)
    ensures forall i, j :: 0 <= i < j < |Dedup(s)| ==> FirstIndex(s, Dedup(s)[i]) < FirstIndex(s, Dedup(s)[j])
  {
    if s != [] {
      var init := s[..|s| - 1];
      var x := s[|s| - 1];
      assert s == init + [x];
      DedupFirstOccurrenceOrder(init);
      var d, d' := Dedup(s), Dedup(init);
      forall y | y in init ensures FirstIndex(s, y) == FirstIndex(init, y) {
        FirstIndexOfPrefix(init, x, y);
      }
      if x !in d' {
        assert d == d' + [x];
        assert FirstIndex(s, x) == |init|;
        forall i, j | 0 <= i < j < |d|
          ensures FirstIndex(s, d[i]) < FirstIndex(s, d[j])
        {
          assert d[i] == d'[i] && d[i] in init;
          if j < |d'| {
            assert d[j] == d'[j];
          }
        }
      }
    }
  }
}
