/** Characters of a class in a text: the digits, a leading run of them, and what is
    left when the others are dropped. */
module Texts {

  predicate IsDigit(c: char) {
    '0' <= c <= '9'
  }

  lemma Reassociated(a: string, b: string, c: string, d: string)
    ensures a + (b + c + d) == a + b + c + d
  {
  }

  /** The characters of the class alone. */
  function Keep(s: string, keep: char -> bool): string {
    if s == "" then ""
    else (if keep(s[0]) then [s[0]] else "") + Keep(s[1..], keep)
  }

  lemma {:induction false} KeepConcat(a: string, b: string, keep: char -> bool)
    ensures Keep(a + b, keep) == Keep(a, keep) + Keep(b, keep)
  {
    if a == "" {
      assert a + b == b;
    } else {
      assert (a + b)[1..] == a[1..] + b;
      KeepConcat(a[1..], b, keep);
      var head := if keep(a[0]) then [a[0]] else "";
      assert Keep(a + b, keep) == head + Keep(a[1..] + b, keep) && Keep(a, keep) == head + Keep(a[1..], keep);
      hide Keep;
    }
  }

  lemma {:induction false} KeepIsKept(s: string, keep: char -> bool)
    ensures forall c <- Keep(s, keep) :: keep(c) && c in s
  {
    if s != "" {
      KeepIsKept(s[1..], keep);
    }
  }

  lemma {:induction false} KeepAll(s: string, keep: char -> bool)
    requires forall c <- s :: keep(c)
    ensures Keep(s, keep) == s
  {
    if s != "" {
      KeepAll(s[1..], keep);
    }
  }

  /** How many characters of the class `s` starts with. */
  function RunLength(s: string, inClass: char -> bool): (n: nat)
    ensures n <= |s|
    ensures forall i :: 0 <= i < n ==> inClass(s[i])
    ensures n < |s| ==> !inClass(s[n])
  {
    if s == "" || !inClass(s[0]) then 0 else 1 + RunLength(s[1..], inClass)
  }

  lemma {:induction false} RunIs(front: string, rest: string, inClass: char -> bool)
    requires (forall i :: 0 <= i < |front| ==> inClass(front[i])) && (rest != "" ==> !inClass(rest[0]))
    ensures RunLength(front + rest, inClass) == |front|
  {
    if front == "" {
      assert front + rest == rest;
    } else {
      assert (front + rest)[1..] == front[1..] + rest;
      RunIs(front[1..], rest, inClass);
    }
  }
}
