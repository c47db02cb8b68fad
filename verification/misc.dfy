/** Frontend utilities: comparison for sorting, word bounds, string
    splicing and truncation, de-duplication by key, structural equality of
    JSON-like values, and the single-flight wrapper `nonConcurrent`. */
module Misc {
  import opened Common
  import opened Strings

  /** `a < b ? -1 : a > b ? 1 : 0` on numbers. */
  function CompareNum(a: int, b: int): (r: int)
    ensures r == -1 <==> a < b
    ensures r == 1 <==> a > b
    ensures r == 0 <==> a == b
  {
    if a < b then -1 else if a > b then 1 else 0
  }

  /** The array branch of `compare`: the first index of the common prefix
      where the arrays differ decides. `None` when the common prefix is equal
      and the source falls through to comparing the arrays as strings. */
  function CompareArrays(a: seq<int>, b: seq<int>): (r: Option<int>)
    ensures r.None? <==> a[..Min(|a|, |b|)] == b[..Min(|a|, |b|)]
    ensures r.Some? ==> exists i :: 0 <= i < Min(|a|, |b|) && a[..i] == b[..i] && r.value == CompareNum(a[i], b[i]) != 0
  {
    if |a| == 0 || |b| == 0 then None
    else if a[0] != b[0] then
      assert a[..0] == b[..0];
      Some(CompareNum(a[0], b[0]))
    else
      var r := CompareArrays(a[1..], b[1..]);
      var m := Min(|a|, |b|);
      assert a[..m] == [a[0]] + a[1..][..m - 1] && b[..m] == [b[0]] + b[1..][..m - 1];
      if r.Some? then
        var i :| 0 <= i < m - 1 && a[1..][..i] == b[1..][..i] && r.value == CompareNum(a[1..][i], b[1..][i]) != 0;
        assert a[..i + 1] == [a[0]] + a[1..][..i] && b[..i + 1] == [b[0]] + b[1..][..i];
        r
      else r
  }

  /** `byProp(key, desc)` over numeric keys: descending swaps the arguments. */
  function ByProp<T>(key: T -> int, desc: bool): (cmp: (T, T) -> int) {
    if desc then (x: T, y: T) => CompareNum(key(y), key(x)) else (x: T, y: T) => CompareNum(key(x), key(y))
  }

  /** Descending order is ascending order reversed. */
  lemma ByPropDescending<T>(key: T -> int, x: T, y: T)
    ensures ByProp(key, true)(x, y) == ByProp(key, false)(y, x) == -ByProp(key, false)(x, y)
  {
  }

  /** Space, tab or newline, as code units. */
  predicate IsWordSep(c: CodeUnit) {
    c == 0x20 || c == 0x09 || c == Newline
  }

  /** `getWordBounds`: the maximal run of non-separator code units around
      `pos`, after clamping `pos` into the text. Positions are textarea
      offsets, which count UTF-16 code units. */
  method GetWordBounds(text: seq<CodeUnit>, pos: int) returns (start: nat, end: nat)
    ensures |text| == 0 ==> start == 0 && end == 0
    ensures |text| > 0 ==> start <= RelClamp(pos, |text|) <= end <= |text|
    ensures forall i :: start <= i < end ==> !IsWordSep(text[i])
    ensures end < |text| ==> IsWordSep(text[end])
    ensures 0 < start ==> IsWordSep(text[start - 1])
  {
    if |text| == 0 {
      return 0, 0;
    }
    var p := RelClamp(pos, |text|);
    end := p;
    while end < |text| && !IsWordSep(text[end])
      invariant p <= end <= |text|
      invariant forall i :: p <= i < end ==> !IsWordSep(text[i])
    {
      end := end + 1;
    }
    start := p;
    while start > 0 && !IsWordSep(text[start - 1])
      invariant 0 <= start <= p
      invariant forall i :: start <= i < p ==> !IsWordSep(text[i])
    {
      start := start - 1;
    }
  }

  /** Clamping into `[0, len]`. */
  function RelClamp(pos: int, len: nat): (r: nat)
    ensures r <= len
    ensures 0 <= pos <= len ==> r == pos
  {
    if pos < 0 then 0 else if pos > len then len else pos
  }

  /** `spliceString(str, start, end, insert)`: `str.slice(0, start)` followed
      by `insert` and `str.slice(end)`, indices counting code units. */
  function SpliceString(s: seq<CodeUnit>, start: int, end: int, insert: seq<CodeUnit>): (r: seq<CodeUnit>)
    ensures |r| == RelIndex(start, |s|) + |insert| + |s| - RelIndex(end, |s|)
    ensures r[..RelIndex(start, |s|)] == s[..RelIndex(start, |s|)]
    ensures r[RelIndex(start, |s|)..RelIndex(start, |s|) + |insert|] == insert
    ensures r[RelIndex(start, |s|) + |insert|..] == s[RelIndex(end, |s|)..]
  {
    s[..RelIndex(start, |s|)] + insert + s[RelIndex(end, |s|)..]
  }

  /** Splicing the slice of a string that is there anyway changes nothing. */
  lemma SpliceIdentity(s: seq<CodeUnit>, start: nat, end: nat)
    requires start <= end <= |s|
    ensures SpliceString(s, start, end, s[start..end]) == s
  {
    assert s == s[..start] + s[start..end] + s[end..];
  }

  /** A prefix of the lines joins to a prefix of the text. */
  lemma {:induction false} JoinPrefix<T>(parts: seq<seq<T>>, k: nat, sep: T)
    requires k <= |parts|
    ensures |Join(parts[..k], sep)| <= |Join(parts, sep)|
    ensures Join(parts[..k], sep) == Join(parts, sep)[..|Join(parts[..k], sep)|]
  {
    if k == 0 {
    } else if k == |parts| {
      assert parts[..k] == parts;
    } else {
      assert |parts| >= 2;
      JoinPrefix(parts[1..], k - 1, sep);
      assert parts[1..][..k - 1] == parts[..k][1..];
      if k == 1 {
        assert parts[..k] == [parts[0]];
      }
    }
  }

  /** The first `n` lines of a text, joined back (the whole text when it
      has no more lines). */
  function FirstLines(txt: seq<CodeUnit>, n: nat): (r: seq<CodeUnit>)
    ensures |r| <= |txt| && r == txt[..|r|]
  {
    var lines := Split(txt, Newline);
    var k := if |lines| > n then n else |lines|;
    JoinPrefix(lines, k, Newline);
    JoinSplit(txt, Newline);
    Join(lines[..k], Newline)
  }

  /** `'...'`. */
  const Ellipsis: seq<CodeUnit> := [0x2E, 0x2E, 0x2E]

  /** `truncateWithEllipsis(txt, maxLines, maxChars)`: a text within both
      limits is returned as it is; otherwise its first `maxLines` lines, cut
      to `maxChars` code units, followed by `...`. */
  function TruncateWithEllipsis(txt: seq<CodeUnit>, maxLines: nat, maxChars: nat): (r: seq<CodeUnit>)
    ensures |Split(txt, Newline)| <= maxLines && |txt| <= maxChars ==> r == txt
    ensures !(|Split(txt, Newline)| <= maxLines && |txt| <= maxChars) ==>
      var head := FirstLines(txt, maxLines);
      r == head[..if |head| > maxChars then maxChars else |head|] + Ellipsis
  {
    var lines := Split(txt, Newline);
    var t := if |lines| > maxLines then Join(lines[..maxLines], Newline) else txt;
    var ellipsis := |lines| > maxLines || |t| > maxChars;
    var t' := if |t| > maxChars then t[..maxChars] else t;
    JoinSplit(txt, Newline);
    assert lines[..|lines|] == lines;
    if ellipsis then t' + Ellipsis else t'
  }

  /** Splitting a prefix never yields more lines than splitting the whole. */
  lemma {:induction false} SplitPrefixCount<T>(s: seq<T>, k: nat, sep: T)
    requires k <= |s|
    ensures |Split(s[..k], sep)| <= |Split(s, sep)|
  {
    if k > 0 {
      assert s[..k][1..] == s[1..][..k - 1];
      SplitPrefixCount(s[1..], k - 1, sep);
    }
  }

  /** The truncated text, before any `...`, is a prefix of the input with at
      most `maxLines` lines and at most `maxChars` characters. */
  lemma TruncateWithinLimits(txt: seq<CodeUnit>, maxLines: nat, maxChars: nat)
    requires maxLines >= 1
    ensures var r := TruncateWithEllipsis(txt, maxLines, maxChars);
      var body := if |Split(txt, Newline)| <= maxLines && |txt| <= maxChars then r else r[..|r| - 3];
      body == txt[..|body|] && |body| <= maxChars && |Split(body, Newline)| <= maxLines
  {
    var lines := Split(txt, Newline);
    var head := FirstLines(txt, maxLines);
    var k := if |lines| > maxLines then maxLines else |lines|;
    assert head == Join(lines[..k], Newline);
    SplitJoin(lines[..k], Newline);
    var cut := if |head| > maxChars then maxChars else |head|;
    SplitPrefixCount(head, cut, Newline);
    assert head[..cut] == txt[..|head|][..cut] == txt[..cut];
  }

  /** The cut counts code units, so it can fall between the two halves of
      a character above the Basic Multilingual Plane and leave a lone
      surrogate, which no longer decodes. */
  lemma TruncateCanSplitPair()
    ensures TruncateWithEllipsis(Utf16("\U{1F600}"), 5, 1) == [0xD83D] + Ellipsis
    ensures Utf16Decode(TruncateWithEllipsis(Utf16("\U{1F600}"), 5, 1)).None?
  {
    var e := Utf16("\U{1F600}");
    assert e == [0xD83D, 0xDE00];
    assert Newline !in e;
    SplitNoSep(e, Newline);
    var r := [0xD83D] + Ellipsis;
    assert r[1..] == Ellipsis;
  }

  /** `getUniqueBy(array, getKey)`: the first element of each key, in input
      order. */
  method GetUniqueBy<T>(arr: seq<T>, key: T -> string) returns (r: seq<T>)
    ensures forall i, j :: 0 <= i < j < |r| ==> key(r[i]) != key(r[j])
    ensures forall x :: x in arr ==> key(x) in Keys(r, key)
    ensures forall i :: 0 <= i < |r| ==> FirstWithKey(arr, key, key(r[i])) == Some(r[i])
    ensures IsOrderedSubseq(r, arr)
  {
    r := [];
    var seen: set<string> := {};
    var n := 0;
    while n < |arr|
      invariant n <= |arr|
      invariant seen == Keys(r, key) == Keys(arr[..n], key)
      invariant forall i, j :: 0 <= i < j < |r| ==> key(r[i]) != key(r[j])
      invariant forall i :: 0 <= i < |r| ==> FirstWithKey(arr, key, key(r[i])) == Some(r[i])
      invariant IsOrderedSubseq(r, arr[..n])
    {
      var x := arr[n];
      assert arr[..n + 1] == arr[..n] + [x];
      KeysAppend(arr[..n], [x], key);
      if key(x) !in seen {
        FindFirstNew(arr, n, key);
        KeysAppend(r, [x], key);
        OrderedSubseqAppend(r, arr[..n], x);
        r := r + [x];
        seen := seen + {key(x)};
      } else {
        OrderedSubseqExtend(r, arr[..n], x);
      }
      n := n + 1;
    }
    assert arr[..n] == arr;
    forall x | x in arr ensures key(x) in Keys(r, key) {
      KeysMember(arr, key, x);
    }
  }

  /** The first element of `s` with key `k` (`Array.prototype.find`). */
  function FirstWithKey<T>(s: seq<T>, key: T -> string, k: string): (r: Option<T>)
    ensures r.Some? ==> r.value in s && key(r.value) == k
    ensures r.None? ==> k !in Keys(s, key)
  {
    if |s| == 0 then None else if key(s[0]) == k then Some(s[0]) else FirstWithKey(s[1..], key, k)
  }

  function Keys<T>(s: seq<T>, key: T -> string): set<string> {
    set i | 0 <= i < |s| :: key(s[i])
  }

  lemma KeysAppend<T>(a: seq<T>, b: seq<T>, key: T -> string)
    ensures Keys(a + b, key) == Keys(a, key) + Keys(b, key)
  {
    var ab := a + b;
    forall k | k in Keys(ab, key) ensures k in Keys(a, key) + Keys(b, key) {
      var i :| 0 <= i < |ab| && key(ab[i]) == k;
      if i >= |a| {
        assert b[i - |a|] == ab[i];
      }
    }
    forall k | k in Keys(a, key) + Keys(b, key) ensures k in Keys(ab, key) {
      if k in Keys(a, key) {
        var i :| 0 <= i < |a| && key(a[i]) == k;
        assert ab[i] == a[i];
      } else {
        var i :| 0 <= i < |b| && key(b[i]) == k;
        assert ab[|a| + i] == b[i];
      }
    }
  }

  lemma KeysMember<T>(s: seq<T>, key: T -> string, x: T)
    requires x in s
    ensures key(x) in Keys(s, key)
  {
    var i :| 0 <= i < |s| && s[i] == x;
  }

  /** Element `arr[n]`, whose key does not occur before it, is the first
      element with that key. */
  lemma {:induction false} FindFirstNew<T>(arr: seq<T>, n: nat, key: T -> string)
    requires n < |arr|
    requires key(arr[n]) !in Keys(arr[..n], key)
    ensures FirstWithKey(arr, key, key(arr[n])) == Some(arr[n])
  {
    if n > 0 {
      assert key(arr[0]) != key(arr[n]) by {
        assert arr[..n][0] == arr[0];
      }
      assert Keys(arr[1..][..n - 1], key) <= Keys(arr[..n], key) by {
        forall k | k in Keys(arr[1..][..n - 1], key) ensures k in Keys(arr[..n], key) {
          var i :| 0 <= i < n - 1 && key(arr[1..][..n - 1][i]) == k;
          assert arr[..n][i + 1] == arr[1..][..n - 1][i];
        }
      }
      FindFirstNew(arr[1..], n - 1, key);
    }
  }

  /** `r` lists elements of `s` in the order they occur in `s`. */
  predicate IsOrderedSubseq<T(==)>(r: seq<T>, s: seq<T>)
    decreases |s|
  {
    if |r| == 0 then true
    else if |s| == 0 then false
    else if r[|r| - 1] == s[|s| - 1] then IsOrderedSubseq(r[..|r| - 1], s[..|s| - 1])
    else IsOrderedSubseq(r, s[..|s| - 1])
  }

  lemma OrderedSubseqAppend<T>(r: seq<T>, s: seq<T>, x: T)
    requires IsOrderedSubseq(r, s)
    ensures IsOrderedSubseq(r + [x], s + [x])
  {
    assert (r + [x])[..|r|] == r && (s + [x])[..|s|] == s;
  }

  lemma {:induction false} OrderedSubseqExtend<T>(r: seq<T>, s: seq<T>, x: T)
    requires IsOrderedSubseq(r, s)
    ensures IsOrderedSubseq(r, s + [x])
    decreases |r| + |s|, 1
  {
    assert (s + [x])[..|s|] == s;
    if |r| > 0 && r[|r| - 1] == x {
      OrderedSubseqInit(r, s);
    }
  }

  lemma {:induction false} OrderedSubseqInit<T>(r: seq<T>, s: seq<T>)
    requires |r| > 0 && IsOrderedSubseq(r, s)
    ensures IsOrderedSubseq(r[..|r| - 1], s)
    decreases |r| + |s|, 0
  {
    var r', s' := r[..|r| - 1], s[..|s| - 1];
    if r[|r| - 1] == s[|s| - 1] {
      OrderedSubseqExtend(r', s', s[|s| - 1]);
    } else {
      OrderedSubseqInit(r, s');
      OrderedSubseqExtend(r', s', s[|s| - 1]);
    }
    assert s' + [s[|s| - 1]] == s;
  }

  /** JSON-like values as `deepEquals` sees them. An array is the object
      whose keys are its indices (see `ArrayVal`). */
  datatype JVal = Undefined | Null | Bool(b: bool) | Num(n: int) | Str(s: string)
                | Obj(fields: seq<(string, JVal)>)

  /** `typeof`, where `null` is an object. */
  function TypeOf(v: JVal): string {
    match v
    case Undefined => "undefined"
    case Null => "object"
    case Bool(_) => "boolean"
    case Num(_) => "number"
    case Str(_) => "string"
    case Obj(_) => "object"
  }

  /** Property access `v[k]`: the value under key `k`, `undefined` if none. */
  function Get(v: JVal, k: string): (r: JVal)
    ensures !v.Obj? ==> r == Undefined
  {
    if v.Obj? then Lookup(v.fields, k) else Undefined
  }

  function Lookup(fields: seq<(string, JVal)>, k: string): JVal {
    if |fields| == 0 then Undefined else if fields[0].0 == k then fields[0].1 else Lookup(fields[1..], k)
  }

  /** An array as an object keyed by the decimal index strings. */
  function ArrayVal(items: seq<JVal>): JVal {
    Obj(seq(|items|, i requires 0 <= i < |items| => (NatToString(i), items[i])))
  }

  /** `deepEquals(a, b, ignoreProps, prop)`. */
  function DeepEquals(a: JVal, b: JVal, ignore: seq<string>, prop: Option<string>): bool
    decreases a, 1
  {
    if prop.Some? && prop.value in ignore then true
    else if TypeOf(a) != TypeOf(b) then false
    else if !a.Obj? || !b.Obj? then a == b
    else if |a.fields| != |b.fields| then false
    else FieldsEqual(a, 0, b, ignore)
  }

  /** `Object.keys(a).every(k => deepEquals(a[k], b[k], ignoreProps, k))`
      over the fields of `a` from index `i` on. */
  function FieldsEqual(a: JVal, i: nat, b: JVal, ignore: seq<string>): bool
    requires a.Obj? && i <= |a.fields|
    decreases a, 0, |a.fields| - i
  {
    if i == |a.fields| then true
    else DeepEquals(a.fields[i].1, Get(b, a.fields[i].0), ignore, Some(a.fields[i].0))
         && FieldsEqual(a, i + 1, b, ignore)
  }

  lemma {:induction false} FieldsEqualAll(a: JVal, i: nat, b: JVal, ignore: seq<string>)
    requires a.Obj? && i <= |a.fields|
    ensures FieldsEqual(a, i, b, ignore) <==>
      forall j :: i <= j < |a.fields| ==> DeepEquals(a.fields[j].1, Get(b, a.fields[j].0), ignore, Some(a.fields[j].0))
    decreases |a.fields| - i
  {
    if i < |a.fields| {
      FieldsEqualAll(a, i + 1, b, ignore);
    }
  }

  /** The ignored names apply to nested properties only: at the top level,
      non-objects are compared with `===` whatever `ignoreProps` holds, and
      objects with different numbers of keys are unequal. */
  lemma DeepEqualsTopLevel(a: JVal, b: JVal, ignore: seq<string>)
    ensures !a.Obj? || !b.Obj? ==> (DeepEquals(a, b, ignore, None) <==> a == b)
    ensures a.Obj? && b.Obj? && |a.fields| != |b.fields| ==> !DeepEquals(a, b, ignore, None)
  {
  }

  /** No key occurs twice (true of every JavaScript object). */
  predicate DistinctKeys(fields: seq<(string, JVal)>) {
    forall i, j :: 0 <= i < j < |fields| ==> fields[i].0 != fields[j].0
  }

  ghost predicate WellFormed(v: JVal) {
    v.Obj? ==> DistinctKeys(v.fields) && forall i :: 0 <= i < |v.fields| ==> WellFormed(v.fields[i].1)
  }

  lemma {:induction false} LookupDistinct(fields: seq<(string, JVal)>, i: nat)
    requires i < |fields| && DistinctKeys(fields)
    ensures Lookup(fields, fields[i].0) == fields[i].1
  {
    if i > 0 {
      LookupDistinct(fields[1..], i - 1);
    }
  }

  /** Every well-formed value is deep-equal to itself, whatever is ignored. */
  lemma {:induction false} DeepEqualsReflexive(a: JVal, ignore: seq<string>, prop: Option<string>)
    requires WellFormed(a)
    ensures DeepEquals(a, a, ignore, prop)
    decreases a
  {
    if a.Obj? && !(prop.Some? && prop.value in ignore) {
      forall i | 0 <= i < |a.fields|
        ensures DeepEquals(a.fields[i].1, Get(a, a.fields[i].0), ignore, Some(a.fields[i].0))
      {
        LookupDistinct(a.fields, i);
        DeepEqualsReflexive(a.fields[i].1, ignore, Some(a.fields[i].0));
      }
      FieldsEqualAll(a, 0, a, ignore);
    }
  }

  /** The single-flight state of `nonConcurrent`: whether a run is in
      progress, whether another was requested meanwhile, and counters of
      runs started and finished. */
  datatype Flight = Flight(running: bool, pending: bool, started: nat, finished: nat)

  /** A call to the wrapper, the wrapped function's promise resolving, or
      its promise rejecting. */
  datatype FlightEvent = Call | Finish | Fail

  const Idle := Flight(false, false, 0, 0)

  /** At most one run is in progress. A pending request does not imply a
      run: a rejected run leaves `pending` set with nothing running. */
  predicate FlightInv(s: Flight) {
    s.started == s.finished + (if s.running then 1 else 0)
  }

  /** One event of `execute`: a call while running only marks `pending`; a
      run that resolves with `pending` clears it and starts exactly one
      further run; a run that rejects skips that check, so `pending` stays
      as it was and nothing further starts. */
  function FlightStep(s: Flight, e: FlightEvent): (t: Flight)
    requires FlightInv(s)
    ensures FlightInv(t)
    ensures e == Call && s.running ==> t == s.(pending := true)
    ensures e == Call && !s.running ==> t.running && t.pending == s.pending && t.started == s.started + 1
    ensures e == Finish && s.running && s.pending ==>
      t.running && !t.pending && t.finished == s.finished + 1 && t.started == s.started + 1
    ensures e == Finish && s.running && !s.pending ==> !t.running && t.started == s.started
    ensures e == Fail && s.running ==> !t.running && t.pending == s.pending && t.started == s.started
    ensures e != Call && !s.running ==> t == s
  {
    match e
    case Call =>
      if s.running then s.(pending := true)
      else s.(running := true, started := s.started + 1)
    case Finish =>
      if !s.running then s
      else if s.pending then Flight(true, false, s.started + 1, s.finished + 1)
      else s.(running := false, finished := s.finished + 1)
    case Fail =>
      if !s.running then s
      else s.(running := false, finished := s.finished + 1)
  }

  function FlightRun(s: Flight, events: seq<FlightEvent>): Flight
    requires FlightInv(s)
    decreases |events|
  {
    if |events| == 0 then s else FlightRun(FlightStep(s, events[0]), events[1..])
  }

  /** Along any sequence of calls and completions, runs never overlap: the
      number of runs in progress is at most one. */
  lemma {:induction false} FlightNoOverlap(events: seq<FlightEvent>, s: Flight)
    requires FlightInv(s)
    ensures FlightInv(FlightRun(s, events))
    ensures FlightRun(s, events).started - FlightRun(s, events).finished <= 1
    decreases |events|
  {
    if |events| > 0 {
      FlightNoOverlap(events[1..], FlightStep(s, events[0]));
    }
  }

  /** A call made while a run is in progress is not honoured if that run
      rejects: afterwards nothing runs although `pending` is set, and the
      request is only served after the next call's run resolves. */
  lemma RejectedRunLeavesRequestPending()
    ensures FlightRun(Idle, [Call, Call, Fail]) == Flight(false, true, 1, 1)
    ensures FlightRun(Idle, [Call, Call, Fail, Call, Finish]) == Flight(true, false, 3, 2)
  {
    var s1 := FlightStep(Idle, Call);
    var s2 := FlightStep(s1, Call);
    var s3 := FlightStep(s2, Fail);
    var s4 := FlightStep(s3, Call);
    assert [Call, Call, Fail][1..] == [Call, Fail];
    assert [Call, Fail][1..] == [Fail];
    assert [Call, Call, Fail, Call, Finish][1..] == [Call, Fail, Call, Finish];
    assert [Call, Fail, Call, Finish][1..] == [Fail, Call, Finish];
    assert [Fail, Call, Finish][1..] == [Call, Finish];
    assert [Call, Finish][1..] == [Finish];
  }
}
