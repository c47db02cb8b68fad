/** Shared vocabulary: optional values, results of operations that can throw,
    and small integer helpers used across the client and server models. */
module Common {

  /** A value that may be absent (`undefined` / `null` in the source). */
  datatype Option<+T> = None | Some(value: T) {
    function GetOr(default: T): T {
      match this
      case Some(v) => v
      case None => default
    }
  }

  /** The outcome of an operation that can throw: `Err` carries the message. */
  datatype Result<+T> = Ok(value: T) | Err(message: string)

  /** Record identifiers (client-generated UUID strings). */
  type Id = string

  function Max(a: int, b: int): int {
    if a >= b then a else b
  }

  function Min(a: int, b: int): int {
    if a <= b then a else b
  }

  /** JavaScript truthiness of an optional string: present and non-empty. */
  predicate TruthyStr(s: Option<string>) {
    s.Some? && s.value != ""
  }

  /** JavaScript truthiness of an optional number: present and non-zero. */
  predicate TruthyNum(n: Option<int>) {
    n.Some? && n.value != 0
  }

  /** Index normalisation used by `Array.prototype.splice` and
      `String.prototype.slice`: negative indices count from the end,
      and the result is clamped into `[0, len]`. */
  function RelIndex(i: int, len: nat): (r: nat)
    ensures r <= len
    ensures 0 <= i <= len ==> r == i
  {
    if i < 0 then (if len + i < 0 then 0 else len + i) else if i > len then len else i
  }

  /** Elements of `s` satisfying `p`, in order. */
  function Filter<T>(s: seq<T>, p: T -> bool): (r: seq<T>)
    ensures |r| <= |s|
    ensures forall i :: 0 <= i < |r| ==> p(r[i])
    ensures forall x :: x in r ==> x in s
  {
    if |s| == 0 then [] else (if p(s[0]) then [s[0]] else []) + Filter(s[1..], p)
  }

  lemma FilterAppend<T>(a: seq<T>, b: seq<T>, p: T -> bool)
    ensures Filter(a + b, p) == Filter(a, p) + Filter(b, p)
  {
    if |a| == 0 {
      assert a + b == b;
    } else {
      assert (a + b)[1..] == a[1..] + b;
      FilterAppend(a[1..], b, p);
    }
  }

  lemma FilterMember<T>(s: seq<T>, p: T -> bool, x: T)
    ensures x in Filter(s, p) <==> x in s && p(x)
  {
    if |s| > 0 {
      FilterMember(s[1..], p, x);
      assert s == [s[0]] + s[1..];
    }
  }

  /** Filtering by a predicate every element meets keeps the sequence. */
  lemma {:induction false} FilterAll<T>(s: seq<T>, p: T -> bool)
    requires forall i :: 0 <= i < |s| ==> p(s[i])
    ensures Filter(s, p) == s
  {
    if |s| > 0 {
      FilterAll(s[1..], p);
    }
  }

  /** Filtering depends only on the predicate's values. */
  lemma {:induction false} FilterExt<T>(s: seq<T>, p: T -> bool, q: T -> bool)
    requires forall x :: p(x) == q(x)
    ensures Filter(s, p) == Filter(s, q)
  {
    if |s| > 0 {
      FilterExt(s[1..], p, q);
    }
  }

  /** First element of `s` satisfying `p` (`Array.prototype.find`). */
  function Find<T>(s: seq<T>, p: T -> bool): (r: Option<T>)
    ensures r.Some? ==> r.value in s && p(r.value)
    ensures r.None? ==> forall i :: 0 <= i < |s| ==> !p(s[i])
  {
    if |s| == 0 then None else if p(s[0]) then Some(s[0]) else Find(s[1..], p)
  }

  /** Element-wise map (`Array.prototype.map`). */
  function Map<A, B>(s: seq<A>, f: A -> B): (r: seq<B>)
    ensures |r| == |s|
    ensures forall i :: 0 <= i < |s| ==> r[i] == f(s[i])
  {
    if |s| == 0 then [] else [f(s[0])] + Map(s[1..], f)
  }

  /** Builds a map from a key function; later entries win, as in
      `Object.fromEntries` and a `reduce` that assigns `acc[key] = item`. */
  function IndexBy<T>(s: seq<T>, key: T -> Id): (m: map<Id, T>)
    ensures m.Keys == set x | x in s :: key(x)
    ensures forall k :: k in m ==> key(m[k]) == k && m[k] in s
  {
    if |s| == 0 then map[]
    else
      var m := IndexBy(s[..|s| - 1], key);
      assert s == s[..|s| - 1] + [s[|s| - 1]];
      assert (set x | x in s :: key(x)) == (set x | x in s[..|s| - 1] :: key(x)) + {key(s[|s| - 1])};
      m[key(s[|s| - 1]) := s[|s| - 1]]
  }

  /** A non-empty sequence holds its head; calling this instead of branching
      on emptiness keeps impossible branches out of proofs. */
  lemma HeadIn<T>(s: seq<T>)
    ensures |s| > 0 ==> s[0] in s
  {
  }

  /** Indexing a concatenation: a key the second part has maps to one of
      its elements (later entries win), any other key to one of the
      first part's. */
  lemma {:induction false} IndexByAppend<T>(a: seq<T>, b: seq<T>, key: T -> Id)
    ensures forall k :: k in IndexBy(a + b, key) && (exists x :: x in b && key(x) == k) ==> IndexBy(a + b, key)[k] in b
    ensures forall k :: k in IndexBy(a + b, key) && !(exists x :: x in b && key(x) == k) ==> IndexBy(a + b, key)[k] in a
    decreases |b|
  {
    if |b| == 0 {
      assert a + b == a;
    } else {
      var b', last := b[..|b| - 1], b[|b| - 1];
      var s := a + b;
      assert s[..|s| - 1] == a + b' && s[|s| - 1] == last;
      assert b == b' + [last];
      var m, m' := IndexBy(s, key), IndexBy(a + b', key);
      assert m == m'[key(last) := last];
      IndexByAppend(a, b', key);
      forall k | k in m && (exists x :: x in b && key(x) == k) ensures m[k] in b {
        if k != key(last) {
          var x :| x in b && key(x) == k;
          assert x in b';
        }
      }
      forall k | k in m && !(exists x :: x in b && key(x) == k) ensures m[k] in a {
        assert key(last) != k;
        forall x | x in b' ensures key(x) != k {
          assert x in b;
        }
      }
    }
  }

  /** The keys of an index of a concatenation are the keys of either part. */
  lemma IndexByKeysAppend<T>(a: seq<T>, b: seq<T>, key: T -> Id)
    ensures forall k :: k in IndexBy(a + b, key) <==> (exists x :: x in a && key(x) == k) || (exists x :: x in b && key(x) == k)
  {
    forall k ensures k in IndexBy(a + b, key) <==> (exists x :: x in a && key(x) == k) || (exists x :: x in b && key(x) == k) {
      if x :| x in a && key(x) == k {
        assert x in a + b;
      }
      if x :| x in b && key(x) == k {
        assert x in a + b;
      }
    }
  }
}
