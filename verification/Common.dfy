// Types shared by every part of the model.
module Common {
  // A JavaScript value that may be null or undefined.
  datatype Option<+T> = None | Some(value: T)

  // The five states of src/types/sessions.ts.
  datatype RefinedStatus = AwaitingUserInput | ToolPending | Crashed | Working | Idle

  // The elements of a sequence, as a set.
  function Elements<T(!new,==)>(s: seq<T>): (r: set<T>)
    ensures forall x :: x in r <==> x in s
  {
    set x | x in s
  }

  // No element occurs twice.
  predicate Distinct<T(==)>(s: seq<T>) {
    forall i, j :: 0 <= i < j < |s| ==> s[i] != s[j]
  }

  // A sequence has as many different elements as positions exactly when no element repeats.
  lemma {:induction false} DistinctByCount<T(!new)>(s: seq<T>)
    ensures |Elements(s)| <= |s|
    ensures |Elements(s)| == |s| <==> Distinct(s)
  {
    if s == [] {
      assert Elements(s) == {};
    } else {
      var rest, last := s[..|s| - 1], s[|s| - 1];
      DistinctByCount(rest);
      assert s == rest + [last];
      assert Elements(s) == Elements(rest) + {last};
      if last in rest {
        assert Elements(s) == Elements(rest);
        var k :| 0 <= k < |rest| && rest[k] == last;
        assert s[k] == s[|s| - 1];
      } else {
        assert Distinct(s) <==> Distinct(rest) by {
          if Distinct(s) {
            assert forall i, j :: 0 <= i < j < |rest| ==> rest[i] == s[i] && rest[j] == s[j];
          }
        }
      }
    }
  }

  // How many numbers below n there are with p.
  function HowMany(n: nat, p: nat -> bool): nat {
    if n == 0 then 0 else HowMany(n - 1, p) + if p(n - 1) then 1 else 0
  }

  lemma {:induction false} HowManyIsSize(n: nat, p: nat -> bool)
    ensures HowMany(n, p) == |set k: nat | k < n && p(k)|
  {
    if n > 0 {
      HowManyIsSize(n - 1, p);
      Below(n, p);
    }
  }

  lemma Below(n: nat, p: nat -> bool)
    requires n > 0
    ensures |set k: nat | k < n && p(k)| == |set k: nat | k < n - 1 && p(k)| + if p(n - 1) then 1 else 0
  {
    var before, after := set k: nat | k < n - 1 && p(k), set k: nat | k < n && p(k);
    if p(n - 1) { assert after == before + {n - 1}; } else { assert after == before; }
  }

  lemma {:induction false} HowManySame(n: nat, p: nat -> bool, q: nat -> bool)
    requires forall k: nat :: k < n ==> p(k) == q(k)
    ensures HowMany(n, p) == HowMany(n, q)
  {
    if n > 0 { HowManySame(n - 1, p, q); }
  }

  lemma {:induction false} HowManyNone(n: nat, p: nat -> bool)
    ensures HowMany(n, p) == 0 <==> forall k: nat :: k < n ==> !p(k)
  {
    if n > 0 { HowManyNone(n - 1, p); }
  }

  // What stands at those of the first n positions that are kept.
  function Filtered<T>(s: seq<T>, keep: nat -> bool, n: nat): seq<T>
    requires n <= |s|
  {
    if n == 0 then [] else Filtered(s, keep, n - 1) + if keep(n - 1) then [s[n - 1]] else []
  }

  // How many elements have a property that some predicate on positions stands for.
  lemma {:induction false} FilteredCount<T>(s: seq<T>, keep: nat -> bool, n: nat, has: T -> bool,
      p: nat -> bool, q: nat -> bool)
    requires n <= |s| && forall k: nat :: k < n ==> p(k) == (keep(k) && has(s[k]))
    requires forall i: nat :: i < |Filtered(s, keep, n)| ==> q(i) == has(Filtered(s, keep, n)[i])
    ensures HowMany(|Filtered(s, keep, n)|, q) == HowMany(n, p)
  {
    if n > 0 {
      var init := Filtered(s, keep, n - 1);
      assert forall i: nat :: i < |init| ==> Filtered(s, keep, n)[i] == init[i];
      FilteredCount(s, keep, n - 1, has, p, q);
    }
  }

  lemma {:induction false} FilteredAll<T>(s: seq<T>, keep: nat -> bool, n: nat, m: nat)
    requires n <= m <= |s| && forall k: nat :: n <= k < m ==> keep(k)
    ensures Filtered(s, keep, m) == Filtered(s, keep, n) + s[n..m]
  {
    if n < m {
      FilteredAll(s, keep, n, m - 1);
      assert s[n..m] == s[n..m - 1] + [s[m - 1]];
    }
  }

  // r is what stands at these positions, in order.
  ghost predicate Picks<T>(s: seq<T>, r: seq<T>, at: seq<nat>) {
    && |at| == |r|
    && (forall i, j :: 0 <= i < j < |at| ==> at[i] < at[j])
    && (forall i :: 0 <= i < |at| ==> at[i] < |s| && r[i] == s[at[i]])
  }

  lemma PicksNext<T>(s: seq<T>, r: seq<T>, at: seq<nat>, x: T)
    requires Picks(s, r, at)
    ensures Picks(s + [x], r, at) && Picks(s + [x], r + [x], at + [|s|])
  {
  }

  lemma {:induction false} FilteredPicks<T>(s: seq<T>, keep: nat -> bool, n: nat) returns (at: seq<nat>)
    requires n <= |s|
    ensures Picks(s[..n], Filtered(s, keep, n), at)
    ensures forall k: nat :: k < n ==> (k in at <==> keep(k))
  {
    if n == 0 {
      at := [];
    } else {
      at := FilteredPicks(s, keep, n - 1);
      PicksNext(s[..n - 1], Filtered(s, keep, n - 1), at, s[n - 1]);
      assert s[..n - 1] + [s[n - 1]] == s[..n];
      if keep(n - 1) { at := at + [n - 1]; }
    }
  }

  // p holds at every moment of a run.
  ghost predicate AtEvery<T>(p: seq<T> -> bool, run: seq<T>) {
    forall k: nat :: k <= |run| ==> p(run[..k])
  }

  lemma AtEveryNext<T>(p: seq<T> -> bool, run: seq<T>, x: T)
    ensures AtEvery(p, run + [x]) <==> AtEvery(p, run) && p(run + [x])
  {
    assert forall k: nat :: k <= |run| ==> (run + [x])[..k] == run[..k];
    assert (run + [x])[..|run| + 1] == run + [x];
  }

  lemma AtEveryEnd<T>(p: seq<T> -> bool, run: seq<T>)
    requires AtEvery(p, run)
    ensures p(run)
  {
    assert run[..|run|] == run;
  }

  // Array.flatMap
  function Flat<A, B>(f: A -> seq<B>, xs: seq<A>): seq<B> {
    if xs == [] then [] else Flat(f, xs[..|xs| - 1]) + f(xs[|xs| - 1])
  }

  lemma FlatPrefix<A, B>(f: A -> seq<B>, xs: seq<A>, n: nat)
    requires n < |xs|
    ensures Flat(f, xs[..n + 1]) == Flat(f, xs[..n]) + f(xs[n])
    ensures f(xs[n]) == [] ==> Flat(f, xs[..n + 1]) == Flat(f, xs[..n])
  {
    assert xs[..n + 1][..n] == xs[..n];
  }

  lemma {:induction false} FlatConcat<A, B>(f: A -> seq<B>, a: seq<A>, b: seq<A>)
    ensures Flat(f, a + b) == Flat(f, a) + Flat(f, b)
  {
    if b == [] {
      assert a + b == a;
    } else {
      FlatConcat(f, a, b[..|b| - 1]);
      assert (a + b)[..|a + b| - 1] == a + b[..|b| - 1];
    }
  }

  lemma ConcatAssoc<T>(a: seq<T>, b: seq<T>, c: seq<T>)
    ensures a + b + c == a + (b + c)
  {
  }

  lemma EndsWith<T>(a: seq<T>, b: seq<T>)
    requires b != []
    ensures a + b == a + b[..|b| - 1] + [b[|b| - 1]]
  {
  }

  // ---------------------------------------------------------- decimal numerals

  predicate IsDigit(c: char) { '0' <= c <= '9' }

  function Digit(d: nat): (c: char)
    requires d < 10
    ensures IsDigit(c) && c as int - '0' as int == d
  {
    ('0' as int + d) as char
  }

  function Decimal(n: nat): (s: string)
    ensures |s| > 0 && forall i :: 0 <= i < |s| ==> IsDigit(s[i])
    ensures s[0] == '0' <==> n == 0
    ensures n == 0 ==> |s| == 1
  {
    if n < 10 then [Digit(n)] else Decimal(n / 10) + [Digit(n % 10)]
  }

  function DigitValue(c: char): nat {
    if IsDigit(c) then c as int - '0' as int else 0
  }

  // parseInt(digits, 10)
  function ParseDecimal(s: string): nat {
    if s == "" then 0 else 10 * ParseDecimal(s[..|s| - 1]) + DigitValue(s[|s| - 1])
  }

  lemma {:induction false} DecimalRoundTrip(n: nat)
    ensures ParseDecimal(Decimal(n)) == n
  {
    if n >= 10 {
      DecimalRoundTrip(n / 10);
      assert Decimal(n)[..|Decimal(n)| - 1] == Decimal(n / 10);
    } else {
      assert Decimal(n)[..0] == "";
    }
  }
}
