/** Server helpers: the six-digit login code built from a random integer,
    and splitting an array by a predicate. */
module ServerMisc {
  import opened Common
  import opened Strings

  function Pow10(k: nat): (r: nat)
    ensures r >= 1
  {
    if k == 0 then 1 else 10 * Pow10(k - 1)
  }

  /** A number below `10^k` has at most `k` decimal digits. */
  lemma {:induction false} NatToStringLength(n: nat, k: nat)
    requires 1 <= k && n < Pow10(k)
    ensures |NatToString(n)| <= k
    decreases n
  {
    if n >= 10 {
      assert Pow10(1) == 10;
      NatToStringLength(n / 10, k - 1);
      var p := NatToString(n / 10);
      assert NatToString(n) == p + [DigitChar(n % 10)];
    }
  }

  /** `generateLoginCode`, given the integer `Math.floor(Math.random() *
      1_000_000)` draws: its decimal digits, padded with zeros to six. */
  function GenerateLoginCode(n: int): (code: string)
    requires 0 <= n < 1000000
    ensures |code| == 6 && AllDigits(code)
    ensures DecimalValue(code) == n
  {
    var s := NatToString(n);
    assert Pow10(6) == 1000000;
    NatToStringLength(n, 6);
    var code := PadStartZero(s, 6);
    if |s| < 6 then
      assert code == seq(6 - |s|, _ => '0') + s;
      ZerosValue(6 - |s|, s);
      code
    else code
  }

  /** Distinct draws give distinct codes. */
  lemma LoginCodeInjective(n: int, m: int)
    requires 0 <= n < 1000000 && 0 <= m < 1000000
    ensures n != m ==> GenerateLoginCode(n) != GenerateLoginCode(m)
  {
  }

  function Not<T>(p: T -> bool): T -> bool {
    (x: T) => !p(x)
  }

  /** Together the two filters are a permutation of the input. */
  lemma {:induction false} FilterSplit<T>(s: seq<T>, p: T -> bool)
    ensures multiset(Filter(s, p)) + multiset(Filter(s, Not(p))) == multiset(s)
    ensures |Filter(s, p)| + |Filter(s, Not(p))| == |s|
  {
    if |s| > 0 {
      FilterSplit(s[1..], p);
      assert s == [s[0]] + s[1..];
    }
  }

  /** `bisectBy`: the elements satisfying `pred`, then the others, each
      kept in input order. */
  method BisectBy<T>(arr: seq<T>, pred: T -> bool) returns (ts: seq<T>, fs: seq<T>)
    ensures ts == Filter(arr, pred) && fs == Filter(arr, Not(pred))
    ensures forall i :: 0 <= i < |fs| ==> !pred(fs[i])
    ensures |ts| + |fs| == |arr|
    ensures multiset(ts) + multiset(fs) == multiset(arr)
  {
    ts, fs := [], [];
    var k := 0;
    while k < |arr|
      invariant 0 <= k <= |arr|
      invariant ts == Filter(arr[..k], pred) && fs == Filter(arr[..k], Not(pred))
    {
      assert arr[..k + 1] == arr[..k] + [arr[k]];
      FilterAppend(arr[..k], [arr[k]], pred);
      FilterAppend(arr[..k], [arr[k]], Not(pred));
      if pred(arr[k]) {
        ts := ts + [arr[k]];
      } else {
        fs := fs + [arr[k]];
      }
      k := k + 1;
    }
    assert arr[..k] == arr;
    FilterSplit(arr, pred);
  }

  /** An always-true predicate leaves the second part empty. */
  method BisectAll<T>(arr: seq<T>) returns (ts: seq<T>, fs: seq<T>)
    ensures ts == arr && fs == []
  {
    ts, fs := BisectBy(arr, (x: T) => true);
    FilterAll(arr, (x: T) => true);
  }

  /** An always-false predicate leaves the first part empty. */
  method BisectNone<T>(arr: seq<T>) returns (ts: seq<T>, fs: seq<T>)
    ensures ts == [] && fs == arr
  {
    var never := (x: T) => false;
    ts, fs := BisectBy(arr, never);
    FilterAll(arr, Not(never));
  }
}
