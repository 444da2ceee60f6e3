/**
 The specification of vertex deduplication: the distinct elements of a
 sequence, listed in the order of their first occurrence. The exporter's
 vertex table is this sequence taken over the flattened triangle corners,
 and a vertex's index is its position in it.

 Equality of elements is Dafny's `==`, an equivalence relation; this is the
 exact-equality map key of the exporter.
 */
module FirstOccurrence {

  /** No element occurs twice. */
  ghost predicate Distinct<T>(s: seq<T>)
  {
    forall i, j :: 0 <= i < j < |s| ==> s[i] != s[j]
  }

  /** The set of elements of a sequence. */
  function Elements<T>(s: seq<T>): set<T>
  {
    set x | x in s
  }

  /** The position of the first occurrence of `x` in `s`, or `|s|` when `x` does not occur. */
  function IndexOf<T(==)>(s: seq<T>, x: T): (k: nat)
    ensures k <= |s|
    ensures k < |s| <==> x in s
    ensures k < |s| ==> s[k] == x
    ensures forall j :: 0 <= j < k ==> s[j] != x
  {
    if s == [] then 0
    else if s[0] == x then 0
    else 1 + IndexOf(s[1..], x)
  }

  /**
   The distinct elements of `s` in first-occurrence order: scanning `s` from
   left to right, an element is appended when it has not been seen before and
   skipped otherwise.
   */
  function FirstOccurrences<T(==)>(s: seq<T>): seq<T>
  {
    if s == [] then []
    else
      var seen := FirstOccurrences(s[..|s| - 1]);
      var x := s[|s| - 1];
      if x in seen then seen else seen + [x]
  }

  /** The definition of the scan unfolded once at `s + [x]`. */
  lemma FirstOccurrencesStep<T>(s: seq<T>, x: T)
    ensures FirstOccurrences(s + [x]) ==
            if x in FirstOccurrences(s) then FirstOccurrences(s) else FirstOccurrences(s) + [x]
  {
    assert (s + [x])[..|s + [x]| - 1] == s;
  }

  /**
   One step of the scan, in terms of the input: an element already scanned
   leaves the table unchanged, and a new one is appended and gets the next
   position, the table's former length.
   */
  lemma {:induction false} FirstOccurrencesSnoc<T>(s: seq<T>, x: T)
    ensures x in s ==> FirstOccurrences(s + [x]) == FirstOccurrences(s)
    ensures x !in s ==>
              && FirstOccurrences(s + [x]) == FirstOccurrences(s) + [x]
              && IndexOf(FirstOccurrences(s + [x]), x) == |FirstOccurrences(s)|
  {
    FirstOccurrencesStep(s, x);
    FirstOccurrencesMember(s, x);
  }

  /** The scan keeps exactly the elements of the input: `x` is in the table iff it occurs in `s`. */
  lemma {:induction false} FirstOccurrencesMember<T>(s: seq<T>, x: T)
    ensures x in FirstOccurrences(s) <==> x in s
  {
    if s != [] {
      var p := s[..|s| - 1];
      FirstOccurrencesMember(p, x);
      assert s == p + [s[|s| - 1]];
    }
  }

  /** The scan lists no element twice. */
  lemma {:induction false} FirstOccurrencesDistinct<T>(s: seq<T>)
    ensures Distinct(FirstOccurrences(s))
  {
    if s != [] {
      FirstOccurrencesDistinct(s[..|s| - 1]);
    }
  }

  /** A sequence has at most as many distinct elements as it is long, and fewer when an element repeats. */
  lemma {:induction false} ElementsBound<T>(s: seq<T>)
    ensures |Elements(s)| <= |s|
    ensures !Distinct(s) ==> |Elements(s)| < |s|
  {
    if s != [] {
      var p := s[..|s| - 1];
      var x := s[|s| - 1];
      ElementsBound(p);
      assert Elements(s) == Elements(p) + {x};
      if !Distinct(s) && Distinct(p) {
        var i, j :| 0 <= i < j < |s| && s[i] == s[j];
        assert j == |s| - 1 && x in p by { assert p[i] == s[i]; }
        assert Elements(s) == Elements(p);
      }
    }
  }

  /** A sequence without repetitions is exactly as long as its set of elements is large. */
  lemma {:induction false} DistinctCardinality<T>(s: seq<T>)
    requires Distinct(s)
    ensures |Elements(s)| == |s|
  {
    if s != [] {
      var p := s[..|s| - 1];
      var x := s[|s| - 1];
      assert Distinct(p);
      DistinctCardinality(p);
      assert x !in p;
      assert Elements(s) == Elements(p) + {x};
    }
  }

  /** The scan is exactly as long as the number of distinct elements of the input. */
  lemma FirstOccurrencesCount<T>(s: seq<T>)
    ensures |FirstOccurrences(s)| == |Elements(s)|
  {
    FirstOccurrencesDistinct(s);
    DistinctCardinality(FirstOccurrences(s));
    forall x
      ensures x in Elements(FirstOccurrences(s)) <==> x in Elements(s)
    {
      FirstOccurrencesMember(s, x);
    }
    assert Elements(FirstOccurrences(s)) == Elements(s);
  }

  /** Appending to the input does not move an element that already occurs in it. */
  lemma {:induction false} IndexOfAppend<T>(s: seq<T>, t: seq<T>, x: T)
    requires x in s
    ensures IndexOf(s + t, x) == IndexOf(s, x)
  {
    if s[0] != x {
      assert (s + t)[1..] == s[1..] + t;
      IndexOfAppend(s[1..], t, x);
    }
  }

  /**
   The scan lists elements in the order in which they first occur in the
   input: of two table entries, the earlier one occurs first in `s`.
   */
  lemma {:induction false} FirstOccurrencesOrdered<T>(s: seq<T>)
    ensures var d := FirstOccurrences(s);
            forall i, j :: 0 <= i < j < |d| ==> IndexOf(s, d[i]) < IndexOf(s, d[j])
  {
    if s != [] {
      var p, last := s[..|s| - 1], s[|s| - 1];
      assert s == p + [last];
      var e := FirstOccurrences(p);
      FirstOccurrencesOrdered(p);
      FirstOccurrencesStep(p, last);
      FirstOccurrencesMember(p, last);
      forall i | 0 <= i < |e|
        ensures IndexOf(s, e[i]) == IndexOf(p, e[i]) < |p|
      {
        FirstOccurrencesMember(p, e[i]);
        IndexOfAppend(p, [last], e[i]);
      }
      if last !in e {
        assert IndexOf(s, last) == |p|;
      }
    }
  }

  /**
   Extending the input never changes the table already built: the table of a
   prefix is a prefix of the table of the whole, so an element keeps the
   position it was first given.
   */
  lemma {:induction false} FirstOccurrencesPrefix<T>(s: seq<T>, t: seq<T>)
    ensures FirstOccurrences(s) <= FirstOccurrences(s + t)
  {
    if t != [] {
      var u, x := t[..|t| - 1], t[|t| - 1];
      FirstOccurrencesPrefix(s, u);
      assert s + t == (s + u) + [x];
      FirstOccurrencesStep(s + u, x);
    } else {
      assert s + t == s;
    }
  }

  /** Corollary: an element's position in the table never changes once assigned. */
  lemma PositionStable<T>(s: seq<T>, t: seq<T>, x: T)
    requires x in s
    ensures IndexOf(FirstOccurrences(s + t), x) == IndexOf(FirstOccurrences(s), x)
  {
    FirstOccurrencesMember(s, x);
    FirstOccurrencesPrefix(s, t);
    var d := FirstOccurrences(s);
    var d' := FirstOccurrences(s + t);
    assert d' == d + d'[|d|..];
    IndexOfAppend(d, d'[|d|..], x);
  }
}
