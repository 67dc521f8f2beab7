/** Stock definitions shared by the other modules. */
module Common {

  datatype Option<+T> = None | Some(value: T)

  /** The numbers below `n`. */
  ghost function Below(n: nat): (s: set<nat>)
    ensures |s| == n
    ensures forall i: nat :: i in s <==> i < n
  {
    if n == 0 then {} else Below(n - 1) + {n - 1}
  }

  lemma {:induction false} SubsetSize<T>(a: set<T>, b: set<T>)
    requires a <= b
    ensures |a| <= |b|
  {
    if a != {} {
      var x :| x in a;
      SubsetSize(a - {x}, b - {x});
    }
  }

  lemma {:induction false} Assoc<T>(a: seq<T>, b: seq<T>, c: seq<T>)
    ensures a + (b + c) == a + b + c
  {}

  lemma {:induction false} SplitFirst<T>(a: seq<T>, b: seq<T>)
    requires a != []
    ensures [a[0]] + a[1..] == a && [a[0]] + (a[1..] + b) == a + b
  {}

  lemma {:induction false} LongerHolds(a: string, b: string, s: string, c: char)
    requires b <= s && |a| < |s| && s[|a|] == c
    ensures |a| < |b| ==> c in b
  {
    if |a| < |b| { assert b[|a|] == s[|a|]; }
  }

  /** What stands before and behind the first separator of a text is determined by the text. */
  lemma {:induction false} CutAtSeparator(separators: set<char>, a: string, c: char, x: string, b: string, d: char, y: string)
    requires (forall k :: k in a || k in b ==> k !in separators) && c in separators && d in separators
    requires a + [c] + x == b + [d] + y
    ensures a == b && c == d && x == y
  {
    var s := a + [c] + x;
    assert s[|a|] == c && s[|b|] == d && a == s[..|a|] && b == s[..|b|];
    LongerHolds(a, b, s, c);
    LongerHolds(b, a, s, d);
    assert x == s[|a| + 1..] && y == s[|b| + 1..];
  }
}
