// Shared vocabulary: optional values, duplicate-free sequences, Java-style
// numeric conversions and the ASCII part of Java's string case mapping.
module Common {

  datatype Option<T> = None | Some(value: T)

  /** No element occurs twice in `s`. */
  predicate NoDups<T(==)>(s: seq<T>) {
    forall i, j :: 0 <= i < j < |s| ==> s[i] != s[j]
  }

  /** Removing one position of a duplicate-free sequence removes exactly that element. */
  lemma NoDupsRemove<T>(s: seq<T>, i: nat)
    requires NoDups(s) && i < |s|
    ensures NoDups(s[..i] + s[i + 1..])
    ensures forall x :: x in s[..i] + s[i + 1..] <==> x in s && x != s[i]
  {
    var r := s[..i] + s[i + 1..];
    assert forall k :: 0 <= k < |r| ==> r[k] == (if k < i then s[k] else s[k + 1]);
    forall x | x in s && x != s[i] ensures x in r {
      var k :| 0 <= k < |s| && s[k] == x;
      if k < i { assert r[k] == x; } else { assert r[k - 1] == x; }
    }
  }

  /** A duplicate-free sequence of indices below `n` has at most `n` elements. */
  lemma {:induction false} Pigeonhole(s: seq<nat>, n: nat)
    requires NoDups(s)
    requires forall x :: x in s ==> x < n
    ensures |s| <= n
  {
    if s == [] {
    } else if i :| 0 <= i < |s| && s[i] == n - 1 {
      assert s[0] in s;
      NoDupsRemove(s, i);
      var rest := s[..i] + s[i + 1..];
      assert forall x :: x in rest ==> x in s && x != n - 1;
      Pigeonhole(rest, n - 1);
    } else {
      assert s[0] in s;
      forall x | x in s ensures x < n - 1 {
        var i :| 0 <= i < |s| && s[i] == x;
      }
      Pigeonhole(s, n - 1);
    }
  }

  /** Java's `Math.ceil` followed by an integer conversion. */
  function Ceil(x: real): (r: int)
    ensures x <= r as real < x + 1.0
  {
    -((-x).Floor)
  }

  /** Java's int division, which truncates toward zero (Dafny's is Euclidean). */
  function JavaDiv(a: int, b: int): (r: int)
    requires b > 0
    ensures a >= 0 ==> 0 <= a - b * r < b
    ensures a < 0 ==> -b < a - b * r <= 0
  {
    if a >= 0 then a / b
    else
      var q := (-a) / b;
      assert -a == b * q + (-a) % b;
      -q
  }

  /** The truncation bounds of `JavaDiv` leave only one quotient. */
  lemma JavaDivUnique(a: int, b: int, q: int)
    requires b > 0
    requires a >= 0 ==> 0 <= a - b * q < b
    requires a < 0 ==> -b < a - b * q <= 0
    ensures q == JavaDiv(a, b)
  {
    var r := JavaDiv(a, b);
    assert b * (q - r) == (a - b * r) - (a - b * q);
    MultipleSign(b, q - r);
  }

  /** A non-zero multiple of a positive `b` is at least `b` away from zero. */
  lemma MultipleSign(b: int, d: int)
    requires b > 0
    ensures d >= 1 ==> b * d >= b
    ensures d <= -1 ==> b * d <= -b
  {
    if d >= 1 {
      assert b * d == b + b * (d - 1);
    } else if d <= -1 {
      assert b * d == -b - b * (-d - 1);
    }
  }

  /** Java's 32-bit two's-complement wrap-around of an `int` expression. */
  function Wrap32(x: int): (r: int)
    ensures -0x8000_0000 <= r < 0x8000_0000
    ensures (r - x) % 0x1_0000_0000 == 0
  {
    var m := x % 0x1_0000_0000;
    if m >= 0x8000_0000 then m - 0x1_0000_0000 else m
  }

  /** `Character.toLowerCase` restricted to ASCII letters. */
  function LowerChar(c: char): (r: char)
    ensures 'A' <= c <= 'Z' ==> 'a' <= r <= 'z' && r as int == c as int + 32
    ensures !('A' <= c <= 'Z') ==> r == c
  {
    if 'A' <= c <= 'Z' then (c as int + 32) as char else c
  }

  /** `String.toLowerCase` restricted to ASCII letters. */
  function Lower(s: string): (r: string)
    ensures |r| == |s|
    ensures forall i :: 0 <= i < |s| ==> r[i] == LowerChar(s[i])
  {
    seq(|s|, i requires 0 <= i < |s| => LowerChar(s[i]))
  }

  lemma {:induction false} LowerIdempotent(s: string)
    ensures Lower(Lower(s)) == Lower(s)
  {
    var l := Lower(s);
    assert forall i :: 0 <= i < |s| ==> Lower(l)[i] == l[i];
  }

  /** `String.contains`: `sub` occurs somewhere in `s`. */
  predicate Contains(s: string, sub: string)
  {
    sub <= s || (s != [] && Contains(s[1..], sub))
  }

  /** `String.endsWith`. */
  predicate EndsWith(s: string, suffix: string)
  {
    |suffix| <= |s| && s[|s| - |suffix|..] == suffix
  }
}
