/** `XSet`, the set class with algebra helpers. Each operation walks the
    receiver's elements as the source does; its contract states the result
    in terms of set algebra. */
module XSet {

  /** `XSet.fromItr(xs, f)`: the image of the items under `f`. */
  method FromItr<A, B>(xs: seq<A>, f: A -> B) returns (r: set<B>)
    ensures forall y :: y in r <==> exists i :: 0 <= i < |xs| && f(xs[i]) == y
  {
    r := {};
    var i := 0;
    while i < |xs|
      invariant 0 <= i <= |xs|
      invariant forall y :: y in r <==> exists j :: 0 <= j < i && f(xs[j]) == y
    {
      r := r + {f(xs[i])};
      i := i + 1;
    }
  }

  /** `intersect`: the receiver's elements the other set has. */
  method Intersect<A>(s: set<A>, that: set<A>) returns (r: set<A>)
    ensures forall x :: x in r <==> x in s && x in that
  {
    r := {};
    var rest := s;
    while rest != {}
      invariant rest <= s
      invariant forall x :: x in r <==> x in s && x !in rest && x in that
      decreases rest
    {
      var x :| x in rest;
      if x in that {
        r := r + {x};
      }
      rest := rest - {x};
    }
  }

  /** `union`: the receiver's elements, then the other set's. */
  method Union<A>(s: set<A>, that: set<A>) returns (r: set<A>)
    ensures forall x :: x in r <==> x in s || x in that
  {
    r := {};
    var rest := s;
    while rest != {}
      invariant rest <= s
      invariant forall x :: x in r <==> x in s && x !in rest
      decreases rest
    {
      var x :| x in rest;
      r := r + {x};
      rest := rest - {x};
    }
    rest := that;
    while rest != {}
      invariant rest <= that
      invariant forall x :: x in r <==> x in s || (x in that && x !in rest)
      decreases rest
    {
      var x :| x in rest;
      r := r + {x};
      rest := rest - {x};
    }
  }

  /** `without`: the receiver's elements the other set lacks. */
  method Without<A>(s: set<A>, that: set<A>) returns (r: set<A>)
    ensures forall x :: x in r <==> x in s && x !in that
  {
    r := {};
    var rest := s;
    while rest != {}
      invariant rest <= s
      invariant forall x :: x in r <==> x in s && x !in rest && x !in that
      decreases rest
    {
      var x :| x in rest;
      if x !in that {
        r := r + {x};
      }
      rest := rest - {x};
    }
  }

  /** `isSubset`: stops at the first element the superset lacks. */
  method IsSubset<A>(s: set<A>, superSet: set<A>) returns (b: bool)
    ensures b <==> forall x :: x in s ==> x in superSet
  {
    var rest := s;
    while rest != {}
      invariant rest <= s
      invariant forall x :: x in s && x !in rest ==> x in superSet
      decreases rest
    {
      var x :| x in rest;
      if x !in superSet {
        return false;
      }
      rest := rest - {x};
    }
    return true;
  }

  /** `toArray`: every element exactly once, in iteration order. */
  method ToArray<A>(s: set<A>) returns (r: seq<A>)
    ensures |r| == |s|
    ensures forall x :: x in r <==> x in s
    ensures forall i, j :: 0 <= i < j < |r| ==> r[i] != r[j]
  {
    r := [];
    var rest := s;
    while rest != {}
      invariant rest <= s
      invariant forall x :: x in r <==> x in s && x !in rest
      invariant forall i, j :: 0 <= i < j < |r| ==> r[i] != r[j]
      invariant |r| + |rest| == |s|
      decreases rest
    {
      var x :| x in rest;
      r := r + [x];
      rest := rest - {x};
    }
  }

  /** `toRecord`: a record with `true` under `String(x)` for every element
      `x`; `str` is the conversion to a property name. */
  method ToRecord<A>(s: set<A>, str: A -> string) returns (r: map<string, bool>)
    ensures forall k :: k in r <==> exists x :: x in s && str(x) == k
    ensures forall k :: k in r ==> r[k]
  {
    r := map[];
    var rest := s;
    while rest != {}
      invariant rest <= s
      invariant forall k :: k in r <==> exists x :: x in s && x !in rest && str(x) == k
      invariant forall k :: k in r ==> r[k]
      decreases rest
    {
      var x :| x in rest;
      r := r[str(x) := true];
      rest := rest - {x};
    }
  }
}
