/** Small value types and sequence facts shared by the other modules. */
module Prelude {

  datatype Option<+T> = None | Some(value: T)

  function Min(a: int, b: int): int { if a <= b then a else b }

  function Max(a: int, b: int): int { if a <= b then b else a }

  function LowerChar(c: char): char { if 'A' <= c <= 'Z' then (c as int + 32) as char else c }

  /** A name as the case-insensitive engines compare it (ASCII letters only). */
  function Lower(s: string): string { seq(|s|, i requires 0 <= i < |s| => LowerChar(s[i])) }

  /** One letter in either case, or the very same character. */
  predicate SameLetter(a: char, b: char) {
    a == b || ('A' <= a <= 'Z' && b as int == a as int + 32) || ('A' <= b <= 'Z' && a as int == b as int + 32)
  }

  predicate SameUpToCase(a: string, b: string) {
    |a| == |b| && forall i :: 0 <= i < |a| ==> SameLetter(a[i], b[i])
  }

  /** Folding identifies exactly the names that agree letter by letter up to case. */
  lemma LowerIsSame(a: string, b: string)
    ensures Lower(a) == Lower(b) <==> SameUpToCase(a, b)
  {
    if Lower(a) == Lower(b) {
      forall i | 0 <= i < |a| ensures SameLetter(a[i], b[i]) {
        assert Lower(a)[i] == Lower(b)[i];
      }
    }
  }

  /** The sum of a sequence of counts. */
  function Sum(s: seq<nat>): nat {
    if s == [] then 0 else s[0] + Sum(s[1..])
  }

  /** The product of a sequence of counts; 1 for the empty one. */
  function Product(s: seq<nat>): nat {
    if s == [] then 1 else s[0] * Product(s[1..])
  }

  /** The largest of a non-empty sequence of counts. */
  function Largest(s: seq<nat>): (m: nat)
    requires s != []
    ensures m in s
    ensures forall i :: 0 <= i < |s| ==> s[i] <= m
  {
    if |s| == 1 then s[0] else Max(s[0], Largest(s[1..]))
  }

  lemma {:induction false} SumAppend(a: seq<nat>, b: seq<nat>)
    ensures Sum(a + b) == Sum(a) + Sum(b)
  {
    if a == [] {
      assert a + b == b;
    } else {
      assert (a + b)[1..] == a[1..] + b;
      SumAppend(a[1..], b);
    }
  }

  lemma {:induction false} SumMonotone(a: seq<nat>, b: seq<nat>)
    requires |a| == |b|
    requires forall i :: 0 <= i < |a| ==> a[i] <= b[i]
    ensures Sum(a) <= Sum(b)
  {
    if a != [] {
      forall i | 0 <= i < |a[1..]| ensures a[1..][i] <= b[1..][i] {
        assert a[1 + i] <= b[1 + i];
      }
      SumMonotone(a[1..], b[1..]);
    }
  }

  lemma {:induction false} ProductMonotone(a: seq<nat>, b: seq<nat>)
    requires |a| == |b|
    requires forall i :: 0 <= i < |a| ==> a[i] <= b[i]
    ensures Product(a) <= Product(b)
  {
    if a != [] {
      forall i | 0 <= i < |a[1..]| ensures a[1..][i] <= b[1..][i] {
        assert a[1 + i] <= b[1 + i];
      }
      ProductMonotone(a[1..], b[1..]);
      MulMonotone(a[0], b[0], Product(a[1..]), Product(b[1..]));
    }
  }

  lemma MulMonotone(a: nat, b: nat, c: nat, d: nat)
    requires a <= b && c <= d
    ensures a * c <= b * d
  {
    assert a * c <= b * c;
    assert b * c <= b * d;
  }

  lemma MulStep(n: nat, m: nat)
    requires n > 0
    ensures n * m == m + (n - 1) * m
  {
  }

  lemma {:induction false} PartAtMostSum(s: seq<nat>, i: nat)
    requires i < |s|
    ensures s[i] <= Sum(s)
  {
    if i > 0 {
      PartAtMostSum(s[1..], i - 1);
    }
  }

  /** No value occurs at two places of the sequence. */
  ghost predicate Distinct<T>(s: seq<T>) {
    forall i, j :: 0 <= i < j < |s| ==> s[i] != s[j]
  }

  /** A list of pairwise different positions below n: a choice of some of n things, in some order. */
  ghost predicate Picks(picks: seq<nat>, n: nat) {
    Distinct(picks) && forall i :: 0 <= i < |picks| ==> picks[i] < n
  }

  /** One cannot choose more things than there are. */
  lemma {:induction false} PicksAtMost(picks: seq<nat>, n: nat)
    requires Picks(picks, n)
    ensures |picks| <= n
  {
    if n == 0 {
    } else if n - 1 in picks {
      var at :| 0 <= at < |picks| && picks[at] == n - 1;
      var rest := picks[..at] + picks[at + 1..];
      forall i | 0 <= i < |rest| ensures rest[i] < n - 1 {
        assert rest[i] == picks[if i < at then i else i + 1];
      }
      forall i, j | 0 <= i < j < |rest| ensures rest[i] != rest[j] {
        assert rest[i] == picks[if i < at then i else i + 1];
        assert rest[j] == picks[if j < at then j else j + 1];
      }
      PicksAtMost(rest, n - 1);
    } else {
      forall i | 0 <= i < |picks| ensures picks[i] < n - 1 {
        assert picks[i] in picks;
      }
      PicksAtMost(picks, n - 1);
    }
  }

  /** Choosing from a choice is a choice. */
  lemma PicksCompose(inner: seq<nat>, outer: seq<nat>, n: nat)
    requires Picks(inner, n) && Picks(outer, |inner|)
    ensures Picks(seq(|outer|, i requires 0 <= i < |outer| => inner[outer[i]]), n)
  {
  }
}
