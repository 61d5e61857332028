/** The request fields the client fabricates to look like the official mobile
    client: the JSON-RPC id and the timestamp. The random draw and the wall
    clock are parameters. */
module Fabrication {
  import opened GoArith
  import opened GoStrings

  /** `rand.Int63n(DrawBound)` draws from `[0, DrawBound - 1]`. */
  const DrawBound: int := 99999
  /** Offset added to the draw before scaling. */
  const IdBase: int := 8300000
  /** Largest value of `(id - 1) / 1000`: the largest draw plus the offset. */
  const IdTop: int := IdBase + DrawBound - 1

  /** The shape every request id has: one more than a multiple of 1000 whose
      quotient lies in the drawable range. */
  predicate WellFormedId(id: int) {
    id % 1000 == 1 && IdBase <= (id - 1) / 1000 <= IdTop
  }

  /** `getRandomNumber`, with the draw of `rand.Int63n(99999)` passed in. */
  function RandomNumber(draw: int): (n: int)
    requires 0 <= draw < DrawBound
    ensures n % 1000 == 0
    ensures IdBase * 1000 <= n <= IdTop * 1000
  {
    (draw + IdBase) * 1000
  }

  /** The id `Translate` puts in the request: the random number plus one. */
  function RequestId(draw: int): (id: int)
    requires 0 <= draw < DrawBound
    ensures WellFormedId(id)
    ensures 8300000001 <= id <= 8399998001
  {
    RandomNumber(draw) + 1
  }

  /** The draw an id was made from. */
  function DrawOf(id: int): int {
    (id - 1) / 1000 - IdBase
  }

  /** Ids and draws are in one-to-one correspondence: every well-formed id
      comes from exactly one draw, and that draw gives it back. */
  lemma IdRoundTrip(id: int, draw: int)
    requires 0 <= draw < DrawBound
    ensures DrawOf(RequestId(draw)) == draw
    ensures WellFormedId(id) ==> 0 <= DrawOf(id) < DrawBound && RequestId(DrawOf(id)) == id
  {
    var n := RequestId(draw);
    DivUnique(n - 1, 1000, draw + IdBase, 0);
    if WellFormedId(id) {
      var q := (id - 1) / 1000;
      assert id - 1 == q * 1000 + (id - 1) % 1000;
      DivUnique(id - 1, 1000, q, 0);
    }
  }

  /** `getICount`: how many times the letter `i` occurs in the text. */
  function ICount(text: string): (n: nat)
    ensures n == multiset(text)['i']
    ensures n <= |text|
    ensures n == 0 <==> 'i' !in text
  {
    CountChar(text, 'i');
    CountBound(text, 'i');
    Count(text, "i")
  }

  /** A character occurs at most once per position, and is counted exactly
      when it occurs. */
  lemma {:induction false} CountBound(s: string, c: char)
    ensures multiset(s)[c] <= |s|
    ensures multiset(s)[c] == 0 <==> c !in s
    decreases |s|
  {
    if |s| > 0 {
      assert s == [s[0]] + s[1..];
      assert multiset(s) == multiset([s[0]]) + multiset(s[1..]);
      assert c in s <==> s[0] == c || c in s[1..];
      CountBound(s[1..], c);
    }
  }

  /** `getTimeStamp`, with the clock reading `ts` (milliseconds) passed in.
      Go's `%` truncates, so for a negative clock the remainder is negative. */
  function TimeStamp(ts: int, iCount: nat): (t: int)
    ensures iCount == 0 ==> t == ts
    ensures iCount > 0 ==> t % (iCount + 1) == 0 && ts < t
    ensures iCount > 0 && ts >= 0 ==> t <= ts + iCount + 1
  {
    if iCount != 0 then
      var n := iCount + 1;
      var r := TruncRem(ts, n);
      MultipleShift(ts - r, n);
      ts - r + n
    else
      ts
  }

  /** Adding the divisor keeps a multiple a multiple. */
  lemma MultipleShift(x: int, n: int)
    requires n > 0 && x % n == 0
    ensures (x + n) % n == 0
  {
    var q := x / n;
    assert x == q * n;
    DivUnique(x + n, n, q + 1, 0);
  }

  /** For a non-negative clock and at least one `i`, the timestamp is the
      least multiple of `iCount + 1` strictly after the clock: any other
      multiple after the clock is at least as large. */
  lemma {:induction false} TimeStampLeast(ts: int, iCount: nat, m: int)
    requires ts >= 0 && iCount > 0
    requires m % (iCount + 1) == 0 && m > ts
    ensures TimeStamp(ts, iCount) <= m
  {
    var n := iCount + 1;
    TruncRemAgrees(ts, n);
    var t := TimeStamp(ts, iCount);
    var qt := ts / n;
    assert t == (qt + 1) * n;
    var qm := m / n;
    assert m == qm * n;
    assert ts == qt * n + ts % n;
    if qm <= qt {
      MulMonotone(qm, qt, n);
      assert false;
    }
    MulMonotone(qt + 1, qm, n);
  }

  lemma MulMonotone(a: int, b: int, n: int)
    requires n > 0 && a <= b
    ensures a * n <= b * n
  {
    if a < b {
      MulAtLeast(b - a, n);
      assert b * n - a * n == (b - a) * n;
    }
  }
}
